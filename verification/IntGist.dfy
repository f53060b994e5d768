/** The gist__int_ops operator class: keys are sets of integers, an inner key is
    the union of the keys below it, stored as at most 100 ranges.  The support
    functions together never lose a row that matches a query, and for every
    operator but equality the scan needs no recheck. */
module IntGist {
  import opened Common
  import opened Int32
  import opened IntArrays
  import opened IntRanges
  import opened IntSets
  import opened BoolQuery
  import opened Gist
  import GistInsert

  // ------------------------------------------------------------ the keys

  /** What `consistent` and the other support functions are handed. */
  ghost predicate Valid(k: seq<int>) {
    StrictlySorted(k) && forall x :: x in Elems(k) ==> IsInt32(x)
  }

  /** A leaf key lists the row's elements. */
  ghost predicate IsKey(k: seq<int>, row: seq<int>) {
    Valid(k) && Elems(k) == Elems(row)
  }

  /** An inner key holds at least the elements of what it stands above. */
  ghost predicate Above(k: seq<int>, c: seq<int>) {
    StrictlySorted(k) && Elems(c) <= Elems(k)
  }

  ghost function AllElems(entries: seq<seq<int>>): set<int> {
    if entries == [] then {} else AllElems(entries[..|entries| - 1]) + Elems(entries[|entries| - 1])
  }

  lemma {:induction false} EachInAll(entries: seq<seq<int>>, i: nat)
    requires i < |entries|
    ensures Elems(entries[i]) <= AllElems(entries)
  {
    hide Elems;
    if i < |entries| - 1 {
      EachInAll(entries[..|entries| - 1], i);
    }
  }

  lemma {:induction false} ElemsAppend(a: seq<int>, b: seq<int>)
    ensures Elems(a + b) == Elems(a) + Elems(b)
  {
  }

  ghost function TotalLength(entries: seq<seq<int>>): nat {
    if entries == [] then 0 else TotalLength(entries[..|entries| - 1]) + |entries[|entries| - 1]|
  }

  /** `g_int_union`: the elements of all entries, in strictly increasing order.  The
      block is for the entries one behind the other, their number added up in an
      int. */
  method Union(entries: seq<seq<int>>) returns (out: Ending)
    ensures Allotted(TotalLength(entries), out)
    ensures out.Key? ==> out.elems == Listing(AllElems(entries))
  {
    hide Granted, Sized, Listing, AllElems, TotalLength, Wrap;
    var totlen := UnionLength(entries);
    var cells := Allocate(totlen, TotalLength(entries));
    SizedGranted(TotalLength(entries));
    if cells.None? {
      return TooBig;
    }
    var all := Appended(entries);
    if cells.value < |all| {
      return Overrun;
    }
    var r := Prepared(all, AllElems(entries));
    return Key(r);
  }

  /** Five keys of the greatest length are granted a block too short for them. */
  lemma {:induction false} UnionOverruns(entries: seq<seq<int>>, out: Ending)
    requires |entries| == 5 && forall i :: 0 <= i < 5 ==> |entries[i]| == MAX_ELEMS
    requires Allotted(TotalLength(entries), out)
    ensures out == Overrun
  {
    EqualLengths(entries, MAX_ELEMS);
  }

  lemma {:induction false} EqualLengths(entries: seq<seq<int>>, m: nat)
    requires forall i :: 0 <= i < |entries| ==> |entries[i]| == m
    ensures TotalLength(entries) == |entries| * m
  {
    if entries != [] {
      var n := |entries| - 1;
      EqualLengths(entries[..n], m);
      assert |entries| * m == n * m + m;
    }
  }

  method UnionLength(entries: seq<seq<int>>) returns (totlen: int)
    ensures totlen == Wrap(TotalLength(entries))
  {
    hide Wrap;
    totlen := 0;
    assert Wrap(0) == 0 by { WrapSmall(0); }
    for i := 0 to |entries|
      invariant totlen == Wrap(TotalLength(entries[..i]))
    {
      assert entries[..i + 1][..i] == entries[..i];
      WrapSum(TotalLength(entries[..i]), |entries[i]|);
      totlen := Wrap(totlen + |entries[i]|);
    }
    assert entries[..|entries|] == entries;
  }

  lemma {:induction false} WrapSmall(x: int)
    requires IsInt32(x)
    ensures Wrap(x) == x
  {
  }

  method Appended(entries: seq<seq<int>>) returns (all: seq<int>)
    ensures |all| == TotalLength(entries) && Elems(all) == AllElems(entries)
  {
    hide Elems;
    all := [];
    NoElems();
    for i := 0 to |entries|
      invariant |all| == TotalLength(entries[..i]) && Elems(all) == AllElems(entries[..i])
    {
      ElemsAppend(all, entries[i]);
      assert entries[..i + 1][..i] == entries[..i];
      all := all + entries[i];
    }
    assert entries[..|entries|] == entries;
  }

  /** Sorted and without repetitions. */
  method Prepared(all: seq<int>, ghost elems: set<int>) returns (r: seq<int>)
    requires Elems(all) == elems
    ensures r == Listing(elems)
  {
    hide StrictlySorted, Sorted, Elems, Listing;
    var a := new int[|all|](i requires 0 <= i < |all| => all[i]);
    assert a[..] == all;
    if a.Length > 1 {
      var _ := Isort(a);
    }
    ShortSorted(a[..]);
    SameElems(a[..], all);
    var n := Unique(a);
    OneListing(a[..n], Listing(elems));
    return a[..n];
  }

  lemma {:induction false} NoElems()
    ensures Elems<int>([]) == {}
  {
  }

  lemma {:induction false} ShortSorted(s: seq<int>)
    ensures |s| <= 1 ==> Sorted(s)
  {
  }

  // -------------------------------------------------------- stored and read

  /** A block of n elements that is not granted in full. */
  ghost function Refusal(n: nat): Ending {
    if Granted(n) then Overrun else TooBig
  }

  /** What an inner key can come back as from `g_int_compress` followed by
      `g_int_decompress`: itself below 200 elements; from there on it is doubled,
      and what the greedy compression reads as. */
  ghost predicate Stores(u: seq<int>, out: Ending) {
    if |u| < 2 * MAXNUMRANGE then out == Key(u)
    else if !Sized(2 * |u|) then out == Refusal(2 * |u|)
    else exists r :: Compression(r, u) && ReadsAs(Ranges(r), u[|u| - 1], out)
  }

  /** When a key comes back: it is short, or it can be doubled, the span less its 99
      widest gaps can be allocated, and it does not touch INT_MAX. */
  ghost predicate Returns(u: seq<int>) {
    |u| < 2 * MAXNUMRANGE || (Sized(2 * |u|) && Sized(StoredSize(u)) && u[|u| - 1] < MAX)
  }

  method Store(u: seq<int>) returns (k: Ending)
    requires Valid(u)
    ensures Stores(u, k) && !k.ReadsPast?
    ensures k.Key? <==> Returns(u)
  {
    hide StrictlySorted, Elems, Ascending, Covered, Ranges, Optimal, Covers, Greedily, ReadsAs, Returns, Granted, Sized;
    ElemsInt32(u);
    var r := CompressInternal(u);
    if |u| >= 2 * MAXNUMRANGE && r.Key? {
      CompressedInt32(r.elems, u);
      k := Decompress(r.elems);
      EndsInt32(u);
      ReadsEnd(Ranges(r.elems), u[|u| - 1], k);
    } else {
      k := r;
    }
    StoreReturns(u, k);
  }

  lemma {:induction false} ReadsEnd(d: seq<Range>, last: int, out: Ending)
    requires ReadsAs(d, last, out) && last <= MAX
    ensures !out.ReadsPast?
  {
    hide Granted, Sized, Covered, StrictlySorted, Elems;
    SizedGranted(|Covered(d)|);
  }

  /** A key that comes back is valid, holds every element it had, and nothing
      outside its ends. */
  lemma {:induction false} StoredKey(u: seq<int>, out: Ending)
    requires Valid(u) && Stores(u, out) && out.Key?
    ensures Valid(out.elems) && Elems(u) <= Elems(out.elems)
    ensures u != [] ==> forall x :: x in Elems(out.elems) ==> u[0] <= x <= u[|u| - 1]
  {
    hide Ascending, Covered, Ranges, Covers, Greedily, Granted, Sized;
    if |u| >= 2 * MAXNUMRANGE {
      assert Sized(2 * |u|);
      var r :| Compression(r, u) && ReadsAs(Ranges(r), u[|u| - 1], out);
      CoversAll(Ranges(r), u);
      WithinEnds(r, u);
      EndsInt32(u);
    }
  }

  lemma {:induction false} EndsInt32(u: seq<int>)
    requires Valid(u) && u != []
    ensures IsInt32(u[0]) && IsInt32(u[|u| - 1])
  {
    assert u[0] in Elems(u) && u[|u| - 1] in Elems(u);
  }

  lemma {:induction false} StoreReturns(u: seq<int>, out: Ending)
    requires Valid(u) && Stores(u, out)
    ensures out.Key? <==> Returns(u)
  {
    hide Ascending, Covered, Ranges, Covers, Greedily, Granted, Sized, StoredSize, Elems, StrictlySorted;
    if |u| >= 2 * MAXNUMRANGE && Sized(2 * |u|) {
      var r :| Compression(r, u) && ReadsAs(Ranges(r), u[|u| - 1], out);
      ElemsInt32(u);
      StoredSizeIs(r, u);
    }
  }

  /** A key comes back when it is not too long, its ends are close enough and it
      does not touch INT_MAX. */
  lemma {:induction false} CloseEndsReturn(u: seq<int>)
    requires Valid(u) && |u| <= MAX_DOUBLED
    requires |u| < 2 * MAXNUMRANGE || (u[|u| - 1] - u[0] < MAX_ELEMS && u[|u| - 1] < MAX)
    ensures Returns(u)
  {
    hide Holes, Widest, Elems;
    if |u| >= 2 * MAXNUMRANGE {
      HolesMonotone(u, |u| - 1, {}, Elems(Widest(u)));
      NoHoles(u, |u| - 1);
      DoubledIff(|u|);
    }
  }

  /** 134217725 consecutive integers, one more than can be doubled. */
  ghost function Dense(): (a: seq<int>)
    ensures |a| == MAX_DOUBLED + 1 && forall i :: 0 <= i < |a| ==> a[i] == i
  {
    seq(MAX_DOUBLED + 1, i => i)
  }

  /** They are the first key that compression is refused memory for. */
  lemma {:induction false} StoreRefuses(out: Ending)
    requires Stores(Dense(), out)
    ensures Valid(Dense()) && out == TooBig
  {
    hide Granted, Sized;
    DoubledIff(|Dense()|);
  }

  /** The key of 201 elements for which the block allocated is too short. */
  lemma {:induction false} StoreOverruns(out: Ending)
    requires Stores(Spaced(), out)
    ensures Valid(Spaced()) && out == Overrun
  {
    hide Ascending, Covered, Ranges, Covers, Greedily, Granted;
    var u := Spaced();
    var r :| Compression(r, u) && ReadsAs(Ranges(r), u[|u| - 1], out);
    OverrunWitness(r);
  }

  /** The key, if there is one. */
  ghost function Returned(k: Ending): Option<seq<int>> {
    if k.Key? then Some(k.elems) else None
  }

  /** What entries are united to, or what prevents it. */
  ghost predicate StoresUnion(entries: seq<seq<int>>, out: Ending) {
    var n := TotalLength(entries);
    if Sized(n) then Stores(Listing(AllElems(entries)), out) else out == Refusal(n)
  }

  /** The key above all entries, which there is exactly when both the entries behind
      one another and their union can be handled. */
  ghost predicate UnitedAs(entries: seq<seq<int>>, k: Option<seq<int>>) {
    var u := Listing(AllElems(entries));
    && (k.Some? <==> Sized(TotalLength(entries)) && Returns(u))
    && (k.Some? ==> Stores(u, Key(k.value)))
  }

  /** An inner key after it was stored and read back: `g_int_union`, then
      `g_int_compress`, then `g_int_decompress`. */
  method StoreInner(entries: seq<seq<int>>) returns (k: Ending)
    requires forall x :: x in AllElems(entries) ==> IsInt32(x)
    ensures StoresUnion(entries, k) && UnitedAs(entries, Returned(k))
    ensures GistInsert.Unites(Valid, Above, entries, Returned(k))
  {
    hide StrictlySorted, Elems, AllElems, Stores, Listing, Returns, Granted, Sized, TotalLength;
    var u := Union(entries);
    SizedGranted(TotalLength(entries));
    if !u.Key? {
      return u;
    }
    k := Store(u.elems);
    if k.Key? {
      UnitedAbove(entries, k.elems);
    }
  }

  lemma {:induction false} UnitedAbove(entries: seq<seq<int>>, k: seq<int>)
    requires forall x :: x in AllElems(entries) ==> IsInt32(x)
    requires Stores(Listing(AllElems(entries)), Key(k))
    ensures GistInsert.Unites(Valid, Above, entries, Some(k))
  {
    hide StrictlySorted, Elems, AllElems, Stores, Listing;
    StoredKey(Listing(AllElems(entries)), Key(k));
    forall i | 0 <= i < |entries| ensures Above(k, entries[i]) {
      EachInAll(entries, i);
    }
  }

  lemma {:induction false} WithinEnds(r: seq<int>, a: seq<int>)
    requires a != [] && |r| == 2 * MAXNUMRANGE && Ascending(Ranges(r))
    requires r[0] == a[0] && r[|r| - 1] == a[|a| - 1]
    ensures forall x :: x in Covered(Ranges(r)) ==> a[0] <= x <= a[|a| - 1]
  {
    hide Covered;
    var d := Ranges(r);
    forall x | x in Covered(d) ensures a[0] <= x <= a[|a| - 1] {
      CoveredIff(d, x);
      var k :| InRange(d, k, x);
      assert d[0] == Range(r[0], r[1]) && d[|d| - 1] == Range(r[|r| - 2], r[|r| - 1]);
      assert d[0].lo <= d[k].lo && d[k].hi <= d[|d| - 1].hi;
    }
  }

  /** What a key becomes above one more: the old key will do exactly when the two
      can be united and it holds the new one already; otherwise their union is
      stored, if it comes back. */
  ghost predicate AdjustedAs(was: seq<int>, add: seq<int>, r: GistInsert.Adjusted<seq<int>>) {
    var u := Listing(Elems(was) + Elems(add));
    var room, held := Sized(|was| + |add|), Elems(add) <= Elems(was);
    && (r.Enough? <==> room && held)
    && (r.Raised? <==> room && !held && Returns(u))
    && (r.Raised? ==> Stores(u, Key(r.key)))
  }

  /** `gistgetadjusted` for this class. */
  method Adjust(was: seq<int>, add: seq<int>) returns (r: GistInsert.Adjusted<seq<int>>)
    requires Valid(was) && Valid(add)
    ensures GistInsert.Adjusts(Valid, Above, was, add, r) && AdjustedAs(was, add, r)
  {
    hide StrictlySorted, Elems, AllElems, Stores, Listing, Returns, Granted, Sized, TotalLength;
    var entries := [was, add];
    AllOfTwo(was, add);
    var u := Union(entries);
    if !u.Key? {
      return GistInsert.NotRaised;
    }
    var same := SameKey(was, u.elems);
    if same {
      return GistInsert.Enough;
    }
    var k := Store(u.elems);
    assert entries[0] == was && entries[1] == add;
    if k.Key? {
      UnitedAbove(entries, k.elems);
      return GistInsert.Raised(k.elems);
    }
    return GistInsert.NotRaised;
  }

  lemma {:induction false} AllOfTwo(a: seq<int>, b: seq<int>)
    ensures AllElems([a, b]) == Elems(a) + Elems(b) && TotalLength([a, b]) == |a| + |b|
  {
    assert [a, b][..1] == [a] && [a][..0] == [];
    assert AllElems([a]) == AllElems([]) + Elems(a);
    assert TotalLength([a]) == TotalLength([]) + |a|;
  }

  lemma {:induction false} ElemsInt32(u: seq<int>)
    requires forall x :: x in Elems(u) ==> IsInt32(x)
    ensures AllInt32(u)
  {
    forall i | 0 <= i < |u| ensures IsInt32(u[i]) {
      assert u[i] in Elems(u);
    }
  }

  lemma {:induction false} CompressedInt32(r: seq<int>, a: seq<int>)
    requires a != [] && AllInt32(a) && |r| == 2 * MAXNUMRANGE && Ascending(Ranges(r))
    requires r[0] == a[0] && r[|r| - 1] == a[|a| - 1]
    ensures AllInt32(r)
  {
    var d := Ranges(r);
    forall i | 0 <= i < |r| ensures IsInt32(r[i]) {
      var k := i / 2;
      assert i == 2 * k || i == 2 * k + 1;
      assert d[k] == Range(r[2 * k], r[2 * k + 1]);
      assert d[0] == Range(r[0], r[1]);
      assert d[|d| - 1] == Range(r[|r| - 2], r[|r| - 1]);
    }
  }

  lemma {:induction false} CoversAll(d: seq<Range>, a: seq<int>)
    requires Covers(d, a)
    ensures Elems(a) <= Covered(d)
  {
  }

  /** A leaf key after it was stored and read back.  `decompress` tells a leaf
      from an inner key only by its length, so it reads a row of 200 distinct
      elements or more as ranges, and past its end when their number is odd. */
  method StoreLeaf(row: seq<int>) returns (k: Ending)
    requires AllInt32(row)
    ensures |Elems(row)| < 2 * MAXNUMRANGE ==> k == Key(Listing(Elems(row))) && IsKey(k.elems, row)
    ensures k.ReadsPast? <==> |Elems(row)| >= 2 * MAXNUMRANGE && |Elems(row)| % 2 == 1
    ensures |Elems(row)| >= 2 * MAXNUMRANGE && |Elems(row)| % 2 == 0 ==>
      var u := Listing(Elems(row));
      |u| == |Elems(row)| && ReadsAs(Ranges(u), u[|u| - 1], k)
    ensures k.Key? ==> Above(k.elems, row)
  {
    hide StrictlySorted, Elems, Ascending, Covered, Ranges, Listing, ReadsAs;
    var r := PrepareArr(row);
    OneListing(r, Listing(Elems(row)));
    ElemsSize(r);
    InElems(row);
    RowInt32(row);
    ElemsInt32(r);
    if |r| >= 2 * MAXNUMRANGE && |r| % 2 == 0 {
      ReadAsRanges(r);
    }
    k := Decompress(r);
    if |r| >= 2 * MAXNUMRANGE && k.Key? {
      ReadElems(Ranges(r), r[|r| - 1], k);
    }
  }

  lemma {:induction false} RowInt32(row: seq<int>)
    requires AllInt32(row)
    ensures forall x :: x in Elems(row) ==> IsInt32(x)
  {
  }

  lemma {:induction false} ReadElems(d: seq<Range>, last: int, out: Ending)
    requires ReadsAs(d, last, out) && out.Key?
    ensures StrictlySorted(out.elems) && Elems(out.elems) == Covered(d)
  {
  }

  lemma {:induction false} InElems(row: seq<int>)
    ensures forall x :: x in Elems(row) <==> x in row
  {
  }

  /** A long leaf read as ranges keeps its elements; it gains none exactly when
      each element at an even place is followed by its successor. */
  lemma {:induction false} ReadAsRanges(k: seq<int>)
    requires StrictlySorted(k) && |k| % 2 == 0
    ensures Ascending(Ranges(k)) && Elems(k) <= Covered(Ranges(k))
    ensures Covered(Ranges(k)) == Elems(k) <==> Paired(k)
  {
    hide Covered;
    var d := Ranges(k);
    forall i | 0 <= i < |k| ensures k[i] in Covered(d) {
      assert InRange(d, i / 2, k[i]);
      CoveredIff(d, k[i]);
    }
    if Paired(k) {
      forall x | x in Covered(d) ensures x in Elems(k) {
        CoveredIff(d, x);
        var j :| InRange(d, j, x);
        assert Follows(k, j);
        assert x == k[2 * j] || x == k[2 * j + 1];
      }
    } else {
      var j :| 0 <= j < |k| / 2 && !Follows(k, j);
      var x := k[2 * j] + 1;
      assert InRange(d, j, x);
      CoveredIff(d, x);
      assert x !in k;
    }
  }

  ghost predicate Follows(k: seq<int>, j: int)
    requires 0 <= j < |k| / 2
  {
    k[2 * j + 1] == k[2 * j] + 1
  }

  ghost predicate Paired(k: seq<int>) {
    forall j :: 0 <= j < |k| / 2 ==> Follows(k, j)
  }

  // --------------------------------------------------------- the queries

  /** The operators of the class: &&, =, @>, <@ and @@. */
  datatype Query = Overlap(a: seq<int>) | Same(a: seq<int>) | Contains(a: seq<int>)
                 | ContainedBy(a: seq<int>) | Boolean(items: seq<Item>)

  /** What each operator says of a row.  Equality is that of arrays, no array
      contains an empty one, and `boolop` is false of an empty one. */
  ghost predicate Matches(q: Query, row: seq<int>)
    requires Proper(q)
  {
    match q
    case Overlap(a) => Elems(row) * Elems(a) != {}
    case Same(a) => row == a
    case Contains(a) => IsContained(a, row)
    case ContainedBy(a) => IsContained(row, a)
    case Boolean(items) => row != [] && Holds(items, row)
  }

  /** The query executed on a row. */
  ghost predicate Holds(items: seq<Item>, row: seq<int>)
    requires items != []
  {
    Execute(items, |items| - 1, true, (i: int, v: int) => Member(row, v))
  }

  /** What the leaf test says of a row: it takes no notice of the order or the
      repetition of elements in equality, finds nothing equal to the empty array,
      and executes a query on an empty row as on any other. */
  ghost predicate Accepts(q: Query, row: seq<int>)
    requires Proper(q)
  {
    match q
    case Same(a) => a != [] && Elems(row) == Elems(a)
    case Boolean(items) => Holds(items, row)
    case _ => Matches(q, row)
  }

  /** "not 1" is accepted of the empty row, of which the operator is false. */
  lemma {:induction false} EmptyRowAccepted()
    ensures var q := Boolean([Item(true, 0, 1), Item(false, -1, NOT)]);
      Accepts(q, []) && !Matches(q, [])
  {
    var items := [Item(true, 0, 1), Item(false, -1, NOT)];
    assert !Execute(items, 0, true, (i: int, v: int) => Member([], v));
  }

  predicate Proper(q: Query) {
    q.Boolean? ==> q.items != []
  }

  ghost predicate LeafTest(q: Query, k: seq<int>)
    requires Proper(q)
  {
    match q
    case Overlap(a) => Elems(k) * Elems(a) != {}
    case Same(a) => a != [] && Elems(k) == Elems(a)
    case Contains(a) => IsContained(a, k)
    case ContainedBy(a) => IsContained(k, a)
    case Boolean(items) => Execute(items, |items| - 1, true, (i: int, v: int) => Member(k, v))
  }

  ghost predicate InnerTest(q: Query, k: seq<int>)
    requires Proper(q)
  {
    match q
    case Overlap(a) => Elems(k) * Elems(a) != {}
    case Same(a) => IsContained(a, k)
    case Contains(a) => IsContained(a, k)
    case ContainedBy(a) => Elems(k) * Elems(a) != {}
    case Boolean(items) => Execute(items, |items| - 1, false, (i: int, v: int) => Member(k, v))
  }

  /** `execute` with `checkcondition_arr` as its leaf test. */
  method ExecuteArr(items: seq<Item>, cur: int, calcnot: bool, arr: seq<int>) returns (r: bool)
    requires 0 <= cur < |items| && StrictlySorted(arr)
    ensures r <==> Execute(items, cur, calcnot, (i: int, v: int) => Member(arr, v))
    decreases cur
  {
    var item := items[cur];
    if item.isVal {
      r := CheckConditionArr(arr, item.val);
    } else if cur == 0 {
      r := false;
    } else if item.val == NOT {
      if calcnot {
        r := ExecuteArr(items, cur - 1, calcnot, arr);
        r := !r;
      } else {
        r := true;
      }
    } else if !(0 <= cur + item.left < cur) {
      r := false;
    } else {
      r := ExecuteArr(items, cur + item.left, calcnot, arr);
      if r == (item.val == AND) {
        r := ExecuteArr(items, cur - 1, calcnot, arr);
      }
    }
  }

  /** `g_int_same` on two prepared arrays. */
  method SameKey(a: seq<int>, b: seq<int>) returns (r: bool)
    requires StrictlySorted(a) && StrictlySorted(b)
    ensures r <==> Elems(a) == Elems(b)
  {
    if |a| != |b| {
      ElemsSize(a);
      ElemsSize(b);
      return false;
    }
    var n := 0;
    while n < |a|
      invariant 0 <= n <= |a| && a[..n] == b[..n]
    {
      if a[n] != b[n] {
        if a[n] < b[n] {
          OnlyInOne(a, b, n);
        } else {
          OnlyInOne(b, a, n);
        }
        return false;
      }
      assert a[..n + 1] == a[..n] + [a[n]] && b[..n + 1] == b[..n] + [b[n]];
      n := n + 1;
    }
    assert a[..n] == a && b[..n] == b;
    return true;
  }

  lemma {:induction false} OnlyInOne(a: seq<int>, b: seq<int>, n: nat)
    requires StrictlySorted(a) && StrictlySorted(b) && n < |a| == |b|
    requires a[..n] == b[..n] && a[n] < b[n]
    ensures a[n] in Elems(a) && a[n] !in Elems(b)
  {
    forall j | 0 <= j < |b| ensures b[j] != a[n] {
      if j < n {
        assert b[j] == b[..n][j] == a[..n][j] == a[j];
      }
    }
  }

  /** `g_int_consistent` */
  method Consistent(key: seq<int>, q: Query, leaf: bool) returns (r: bool, recheck: bool)
    requires StrictlySorted(key) && Proper(q)
    ensures recheck <==> q.Same?
    ensures r <==> if leaf then LeafTest(q, key) else InnerTest(q, key)
  {
    recheck := q.Same?;
    if q.Boolean? {
      r := ExecuteArr(q.items, |q.items| - 1, leaf, key);
      return;
    }
    if q.a == [] {
      NoElems();
      return false, recheck;
    }
    var query := PrepareArr(q.a);
    Nonempty(query, q.a);
    match q
    case Overlap(_) =>
      r := InnerOverlap(key, query);
    case Same(_) =>
      if leaf {
        r := SameKey(key, query);
      } else {
        r := InnerContains(key, query);
      }
    case Contains(_) =>
      r := InnerContains(key, query);
    case ContainedBy(_) =>
      if leaf {
        r := InnerContains(query, key);
      } else {
        r := InnerOverlap(key, query);
      }
  }

  // ------------------------------------------------------------ the scan

  lemma {:induction false} LeafAccepts(q: Query, k: seq<int>, row: seq<int>)
    requires Proper(q) && IsKey(k, row)
    ensures LeafTest(q, k) <==> Accepts(q, row)
  {
    hide Execute;
    match q
    case Contains(_) => Nonempty(k, row);
    case ContainedBy(_) => Nonempty(k, row);
    case Boolean(items) =>
      InElems(k);
      InElems(row);
      SameExecute(items, |items| - 1, (i: int, v: int) => Member(k, v), (i: int, v: int) => Member(row, v));
    case _ =>
  }

  /** The leaf test is exact for overlap and containment; for a Boolean query
      exactly when the row is not empty or the query fails on the empty array;
      and it lets every equal row pass, the empty one excepted. */
  lemma {:induction false} LeafExact(q: Query, k: seq<int>, row: seq<int>)
    requires Proper(q) && IsKey(k, row)
    ensures q.Overlap? || q.Contains? || q.ContainedBy? ==> (LeafTest(q, k) <==> Matches(q, row))
    ensures q.Boolean? ==> ((LeafTest(q, k) <==> Matches(q, row)) <==> (row != [] || !Holds(q.items, [])))
    ensures q.Same? && Matches(q, row) ==> (LeafTest(q, k) <==> q.a != [])
  {
    LeafAccepts(q, k, row);
    hide Execute, Holds;
  }

  /** No inner key above a row the leaf test accepts is refused. */
  lemma {:induction false} InnerSound(q: Query, k: seq<int>, row: seq<int>)
    requires Proper(q) && Above(k, row) && Accepts(q, row)
    ensures InnerTest(q, k)
  {
    hide Execute;
    match q
    case Overlap(a) => assert Elems(row) * Elems(a) <= Elems(k) * Elems(a);
    case Same(a) => assert a[0] in Elems(a) && a[0] in Elems(k);
    case Contains(a) => assert a[0] in Elems(k);
    case ContainedBy(a) => assert row[0] in Elems(row); assert row[0] in Elems(k) * Elems(a);
    case Boolean(items) =>
      InElems(k);
      InElems(row);
      LossyExecute(items, |items| - 1, (i: int, v: int) => Member(row, v), (i: int, v: int) => Member(k, v));
  }

  /** And no inner key passes that cannot stand above such a row: the test prunes all
      it can. */
  lemma {:induction false} InnerTight(q: Query, k: seq<int>)
    requires Proper(q) && Valid(k) && !q.Boolean?
    ensures InnerTest(q, k) <==> exists row :: Above(k, row) && Accepts(q, row)
  {
    if InnerTest(q, k) {
      var row := RowBelow(q, k);
      assert Above(k, row) && Accepts(q, row);
    }
    forall row | Above(k, row) && Accepts(q, row) ensures InnerTest(q, k) {
      InnerSound(q, k, row);
    }
  }

  lemma {:induction false} RowBelow(q: Query, k: seq<int>) returns (row: seq<int>)
    requires Proper(q) && Valid(k) && !q.Boolean? && InnerTest(q, k)
    ensures Above(k, row) && Accepts(q, row)
  {
    if q.Same? || q.Contains? {
      row := q.a;
    } else {
      var x := Pick(Elems(k) * Elems(q.a));
      row := [x];
      assert Elems(row) == {x};
      assert x in Elems(row) * Elems(q.a);
    }
  }

  /** For a Boolean query the inner test is the query with every negation replaced by
      true, on the elements of the key; where nothing is negated it prunes all it
      can. */
  lemma {:induction false} BooleanTight(items: seq<Item>, e: Expr, k: seq<int>)
    requires |items| == Size(e) && Linked(items, 0, e) && Valid(k)
    ensures InnerTest(Boolean(items), k) <==> LossyEval(e, 0, (i: int, v: int) => Member(k, v))
    ensures !Negates(e) ==>
      (InnerTest(Boolean(items), k) <==> exists row :: Above(k, row) && Accepts(Boolean(items), row))
  {
    hide Linked, Execute, Eval, LossyEval, Negates, Above;
    var leaf := (i: int, v: int) => Member(k, v);
    SizePositive(e);
    ExecuteIsLossyEval(items, 0, e, leaf);
    if !Negates(e) {
      LossyIsExact(e, 0, leaf);
      ExecuteIsEval(items, 0, e, leaf);
      AboveSelf(k);
      forall row | Above(k, row) && Accepts(Boolean(items), row) ensures InnerTest(Boolean(items), k) {
        InnerSound(Boolean(items), k, row);
      }
    }
  }

  lemma {:induction false} AboveSelf(k: seq<int>)
    requires Valid(k)
    ensures Above(k, k)
  {
  }

  lemma {:induction false} AboveTransitive()
    ensures forall a, b, k :: Above(a, b) && Above(b, k) ==> Above(a, k)
  {
    hide Elems;
  }

  /** Support functions that keep the contracts of this module make a sound class. */
  lemma {:induction false} SupportedIsSound(c: GistInsert.OpClass<seq<int>, seq<int>>)
    requires c.valid == Valid && c.above == Above && forall k, row :: c.isKey(k, row) ==> IsKey(k, row)
    requires GistInsert.Supported(c)
    ensures GistInsert.Sound(c)
  {
    hide Above, Valid, GistInsert.Supported;
    AboveTransitive();
  }

  // ------------------------------------------- classes as they are coded

  /** The support functions do just what the methods of this module do, failures
      included. */
  ghost predicate AsCoded(c: GistInsert.OpClass<seq<int>, seq<int>>) {
    (forall a, b :: Valid(a) && Valid(b) ==> AdjustedAs(a, b, c.adjust(a, b)))
    && (forall ks :: ks != [] && GistInsert.AllValid(Valid, ks) ==> UnitedAs(ks, c.unionAll(ks)))
    && (forall ks :: |ks| >= 3 && GistInsert.AllValid(Valid, ks) ==> DividedAs(ks, c.pick(ks)))
    && c.above == Above && GistInsert.Roomy(c.space)
  }

  /** Keys inside a window. */
  ghost predicate InWindow(lo: int, hi: int, k: seq<int>) {
    Valid(k) && forall x :: x in Elems(k) ==> lo <= x < hi
  }

  /** The keys of the class are those inside the window. */
  ghost predicate Windowed(c: GistInsert.OpClass<seq<int>, seq<int>>, lo: int, hi: int) {
    (forall k :: c.valid(k) <==> InWindow(lo, hi, k))
    && forall k, row :: c.isKey(k, row) ==> IsKey(k, row) && InWindow(lo, hi, k)
  }

  /** A key stored from inside a window is inside it. */
  lemma {:induction false} StoredInWindow(lo: int, hi: int, u: seq<int>, k: seq<int>)
    requires InWindow(lo, hi, u) && Stores(u, Key(k))
    ensures InWindow(lo, hi, k) && Elems(u) <= Elems(k)
  {
    hide Stores, StrictlySorted;
    StoredKey(u, Key(k));
    if u == [] {
      NothingStored(k);
    } else {
      assert u[0] in Elems(u) && u[|u| - 1] in Elems(u);
    }
  }

  lemma {:induction false} NothingStored(k: seq<int>)
    requires Stores([], Key(k))
    ensures k == []
  {
  }

  lemma {:induction false} PairInWindow(lo: int, hi: int, a: seq<int>, b: seq<int>)
    requires InWindow(lo, hi, a) && InWindow(lo, hi, b)
    ensures InWindow(lo, hi, Listing(Elems(a) + Elems(b)))
  {
    hide Listing;
  }

  lemma {:induction false} AllInWindow(lo: int, hi: int, ks: seq<seq<int>>)
    requires forall i :: 0 <= i < |ks| ==> InWindow(lo, hi, ks[i])
    ensures forall x :: x in AllElems(ks) ==> IsInt32(x) && lo <= x < hi
    ensures InWindow(lo, hi, Listing(AllElems(ks)))
  {
    hide Listing, Elems, StrictlySorted;
    if ks != [] {
      AllInWindow(lo, hi, ks[..|ks| - 1]);
    }
  }

  /** Such a class is sound, on all keys or on those of any window. */
  lemma {:induction false} CodedIsSound(c: GistInsert.OpClass<seq<int>, seq<int>>, lo: int, hi: int)
    requires AsCoded(c) && Windowed(c, lo, hi)
    ensures GistInsert.Sound(c)
  {
    hide Above, InWindow, IsKey, AdjustedAs, UnitedAs, DividedAs, GistInsert.Adjusts, GistInsert.Unites,
      GistInsert.Halves, GistInsert.Roomy;
    AboveTransitive();
    WindowValid(lo, hi);
    forall a, b | c.valid(a) && c.valid(b) ensures GistInsert.Adjusts(c.valid, c.above, a, b, c.adjust(a, b)) {
      CodedAdjusts(c, lo, hi, a, b);
    }
    forall ks | ks != [] && GistInsert.AllValid(c.valid, ks)
      ensures GistInsert.Unites(c.valid, c.above, ks, c.unionAll(ks))
    {
      CodedUnites(c, lo, hi, ks);
    }
    forall ks | |ks| >= 3 && GistInsert.AllValid(c.valid, ks)
      ensures GistInsert.Halves(c.valid, c.above, ks, c.pick(ks))
    {
      CodedHalves(c, lo, hi, ks);
    }
  }

  lemma {:induction false} WindowValid(lo: int, hi: int)
    ensures forall k :: InWindow(lo, hi, k) ==> Valid(k)
  {
  }

  lemma {:induction false} CodedAdjusts(
    c: GistInsert.OpClass<seq<int>, seq<int>>, lo: int, hi: int, a: seq<int>, b: seq<int>)
    requires Windowed(c, lo, hi) && c.above == Above && c.valid(a) && c.valid(b)
    requires AdjustedAs(a, b, c.adjust(a, b))
    ensures GistInsert.Adjusts(c.valid, c.above, a, b, c.adjust(a, b))
  {
    hide Stores, Listing, Elems, StrictlySorted, Returns, Sized;
    var r := c.adjust(a, b);
    if r.Raised? {
      PairInWindow(lo, hi, a, b);
      StoredInWindow(lo, hi, Listing(Elems(a) + Elems(b)), r.key);
    }
  }

  lemma {:induction false} CodedUnites(
    c: GistInsert.OpClass<seq<int>, seq<int>>, lo: int, hi: int, ks: seq<seq<int>>)
    requires Windowed(c, lo, hi) && c.above == Above && GistInsert.AllValid(c.valid, ks)
    requires UnitedAs(ks, c.unionAll(ks))
    ensures GistInsert.Unites(c.valid, c.above, ks, c.unionAll(ks))
  {
    hide Stores, Listing, Elems, AllElems, StrictlySorted, Returns, Sized, InWindow;
    var k := c.unionAll(ks);
    if k.Some? {
      AllInWindow(lo, hi, ks);
      StoredInWindow(lo, hi, Listing(AllElems(ks)), k.value);
      UnitedAbove(ks, k.value);
    }
  }

  lemma {:induction false} CodedHalves(
    c: GistInsert.OpClass<seq<int>, seq<int>>, lo: int, hi: int, ks: seq<seq<int>>)
    requires Windowed(c, lo, hi) && c.above == Above && |ks| >= 3 && GistInsert.AllValid(c.valid, ks)
    requires DividedAs(ks, c.pick(ks))
    ensures GistInsert.Halves(c.valid, c.above, ks, c.pick(ks))
  {
    hide Stores, Elems, StrictlySorted, Returns, Sized, InWindow, IsLeast, Above, UnionsFit;
    var h := c.pick(ks);
    if h.Some? {
      var l, r :| Divides(ks, h.value.left, h.value.right, l, r)
        && Stores(l, Key(h.value.l)) && Stores(r, Key(h.value.r));
      StoredSide(lo, hi, ks, h.value.left, l, h.value.l);
      StoredSide(lo, hi, ks, h.value.right, r, h.value.r);
    }
  }

  lemma {:induction false} StoredSide(
    lo: int, hi: int, ks: seq<seq<int>>, side: seq<int>, k: seq<int>, stored: seq<int>)
    requires forall i :: 0 <= i < |ks| ==> InWindow(lo, hi, ks[i])
    requires IsLeast(ks, Above, side, k) && Stores(k, Key(stored))
    ensures InWindow(lo, hi, stored) && AboveAll(ks, Above, side, stored)
  {
    hide Stores, StrictlySorted, Elems;
    SideInWindow(lo, hi, ks, side, k);
    StoredInWindow(lo, hi, k, stored);
  }

  /** On rows inside a window below INT_MAX, small enough for two keys and for as
      many as a page is split into to be united, the class never fails: the run
      returns. */
  lemma {:induction false} WindowTotal(
    c: GistInsert.OpClass<seq<int>, seq<int>>, lo: int, hi: int,
    ops: seq<GistInsert.Insertion<seq<int>, seq<int>>>, n: nat)
    requires AsCoded(c) && Windowed(c, lo, hi) && lo <= hi <= MAX && GistInsert.Proper(c, ops)
    requires 2 * (hi - lo) <= MAX_ELEMS && n * (hi - lo) <= MAX_ELEMS
    ensures GistInsert.Sound(c)
    ensures GistInsert.NarrowRun(c, ops, n) ==> GistInsert.After(c, ops).Some?
    ensures |ops| <= n ==> GistInsert.After(c, ops).Some?
  {
    hide Above, InWindow, IsKey, AdjustedAs, UnitedAs, DividedAs, GistInsert.Sound, GistInsert.Proper;
    CodedIsSound(c, lo, hi);
    WindowValid(lo, hi);
    forall a, b | c.valid(a) && c.valid(b) ensures !c.adjust(a, b).NotRaised? {
      WindowAdjusts(lo, hi, a, b, c.adjust(a, b));
    }
    forall ks | 0 < |ks| <= n && GistInsert.AllValid(c.valid, ks) ensures c.unionAll(ks).Some? {
      Product(|ks|, n, hi - lo);
      WindowUnites(lo, hi, ks, c.unionAll(ks));
    }
    forall ks | |ks| >= 3 && GistInsert.AllValid(c.valid, ks) ensures c.pick(ks).Some? {
      WindowDivides(lo, hi, ks, c.pick(ks));
    }
    if |ops| <= n { GistInsert.RunNarrow(c, ops, n); }
    if GistInsert.NarrowRun(c, ops, n) { GistInsert.TotalRuns(c, ops, n); }
  }

  lemma {:induction false} Product(m: nat, n: nat, w: nat)
    requires m <= n
    ensures m * w <= n * w
  {
  }

  lemma {:induction false} WindowSize(lo: int, hi: int, k: seq<int>)
    requires InWindow(lo, hi, k) && lo <= hi
    ensures |k| <= hi - lo
  {
    ElemsSize(k);
    assert Elems(k) <= Interval(lo, hi - 1);
    SubsetSize(Elems(k), Interval(lo, hi - 1));
  }

  lemma {:induction false} WindowReturns(lo: int, hi: int, u: seq<int>)
    requires InWindow(lo, hi, u) && lo <= hi <= MAX && 2 * (hi - lo) <= MAX_ELEMS
    ensures Returns(u)
  {
    hide Returns;
    WindowSize(lo, hi, u);
    if u != [] {
      assert u[0] in Elems(u) && u[|u| - 1] in Elems(u);
    }
    CloseEndsReturn(u);
  }

  lemma {:induction false} WindowAdjusts(
    lo: int, hi: int, a: seq<int>, b: seq<int>, r: GistInsert.Adjusted<seq<int>>)
    requires InWindow(lo, hi, a) && InWindow(lo, hi, b) && lo <= hi <= MAX && 2 * (hi - lo) <= MAX_ELEMS
    requires AdjustedAs(a, b, r)
    ensures !r.NotRaised?
  {
    hide Returns, Stores, Elems, Listing, InWindow, Sized;
    WindowSize(lo, hi, a);
    WindowSize(lo, hi, b);
    SizedGranted(|a| + |b|);
    PairInWindow(lo, hi, a, b);
    WindowReturns(lo, hi, Listing(Elems(a) + Elems(b)));
  }

  lemma {:induction false} WindowUnites(lo: int, hi: int, ks: seq<seq<int>>, k: Option<seq<int>>)
    requires (forall i :: 0 <= i < |ks| ==> InWindow(lo, hi, ks[i])) && lo <= hi <= MAX && UnitedAs(ks, k)
    requires 2 * (hi - lo) <= MAX_ELEMS && |ks| * (hi - lo) <= MAX_ELEMS
    ensures k.Some?
  {
    hide Returns, Stores, Elems, Listing, InWindow, AllElems, Sized;
    WindowLength(lo, hi, ks);
    SizedGranted(TotalLength(ks));
    AllInWindow(lo, hi, ks);
    WindowReturns(lo, hi, Listing(AllElems(ks)));
  }

  lemma {:induction false} WindowLength(lo: int, hi: int, ks: seq<seq<int>>)
    requires (forall i :: 0 <= i < |ks| ==> InWindow(lo, hi, ks[i])) && lo <= hi
    ensures TotalLength(ks) <= |ks| * (hi - lo)
  {
    hide InWindow;
    if ks != [] {
      var n := |ks| - 1;
      WindowLength(lo, hi, ks[..n]);
      WindowSize(lo, hi, ks[n]);
      assert |ks| * (hi - lo) == n * (hi - lo) + (hi - lo);
    }
  }

  lemma {:induction false} WindowDivides(
    lo: int, hi: int, ks: seq<seq<int>>, h: Option<GistInsert.Split<seq<int>>>)
    requires (forall i :: 0 <= i < |ks| ==> InWindow(lo, hi, ks[i])) && lo <= hi <= MAX && |ks| >= 3
    requires 2 * (hi - lo) <= MAX_ELEMS && DividedAs(ks, h)
    ensures h.Some?
  {
    hide Returns, Stores, Elems, InWindow, AllElems, IsLeast, UnionsFit, Above, SplitOk;
    WindowUnionsFit(lo, hi, ks);
    if h.None? {
      var left, right, l, r :| Divides(ks, left, right, l, r) && !(Returns(l) && Returns(r));
      SideInWindow(lo, hi, ks, left, l);
      SideInWindow(lo, hi, ks, right, r);
      WindowReturns(lo, hi, l);
      WindowReturns(lo, hi, r);
    }
  }

  lemma {:induction false} WindowUnionsFit(lo: int, hi: int, ks: seq<seq<int>>)
    requires (forall i :: 0 <= i < |ks| ==> InWindow(lo, hi, ks[i])) && lo <= hi
    requires 2 * (hi - lo) <= MAX_ELEMS && ks != []
    ensures UnionsFit(ks)
  {
    hide Elems, InWindow, AllElems, Sized, Listing;
    AllInWindow(lo, hi, ks[1..]);
    var u := Listing(AllElems(ks[1..]));
    WindowSize(lo, hi, u);
    ElemsSize(u);
    forall i | 0 < i < |ks| ensures Sized(|AllElems(ks[1..])| + |ks[i]|) {
      WindowSize(lo, hi, ks[i]);
      SizedGranted(|AllElems(ks[1..])| + |ks[i]|);
    }
  }

  // --------------------------------------------------- there is a class

  /** What u is stored as, ties broken somehow. */
  ghost function StoredAs(u: seq<int>): (k: Option<seq<int>>)
    ensures Valid(u) ==> (k.Some? <==> Returns(u))
    ensures k.Some? ==> Stores(u, Key(k.value))
  {
    if Valid(u) && Returns(u) then
      SomeStored(u);
      var k :| Stores(u, Key(k));
      Some(k)
    else None
  }

  lemma {:induction false} SomeStored(u: seq<int>)
    requires Valid(u) && Returns(u)
    ensures exists k :: Stores(u, Key(k))
  {
    hide Ascending, Covered, Ranges, Covers, Greedily, Listing, StoredSize, Sized, Granted;
    if |u| < 2 * MAXNUMRANGE {
      assert Stores(u, Key(u));
    } else {
      ElemsInt32(u);
      var r := GreedyExists(u);
      StoredSizeIs(r, u);
      var k := Listing(Covered(Ranges(r)));
      ElemsSize(k);
      SizedGranted(|Covered(Ranges(r))|);
      EndsInt32(u);
      assert ReadsAs(Ranges(r), u[|u| - 1], Key(k));
      assert Stores(u, Key(k));
    }
  }

  ghost function CodedAdjust(was: seq<int>, add: seq<int>): GistInsert.Adjusted<seq<int>> {
    if !Sized(|was| + |add|) then GistInsert.NotRaised
    else if Elems(add) <= Elems(was) then GistInsert.Enough
    else
      match StoredAs(Listing(Elems(was) + Elems(add)))
      case None => GistInsert.NotRaised
      case Some(k) => GistInsert.Raised(k)
  }

  ghost function CodedUnion(ks: seq<seq<int>>): Option<seq<int>> {
    if Sized(TotalLength(ks)) then StoredAs(Listing(AllElems(ks))) else None
  }

  /** The first entry apart, where both sides come back. */
  ghost function CodedPick(ks: seq<seq<int>>): Option<GistInsert.Split<seq<int>>> {
    if |ks| < 3 then None
    else
      var l, r := StoredAs(ks[1]), StoredAs(Listing(AllElems(ks[2..])));
      if l.Some? && r.Some? then Some(GistInsert.Split([1], GistInsert.OffsetsFrom2(|ks| - 2), l.value, r.value))
      else None
  }

  ghost function CodedClass(lo: int, hi: int, space: GistInsert.Space<seq<int>>)
    : GistInsert.OpClass<seq<int>, seq<int>>
  {
    GistInsert.OpClass(k => InWindow(lo, hi, k), (k, row) => IsKey(k, row) && InWindow(lo, hi, k), Above,
      CodedAdjust, CodedUnion, CodedPick, space)
  }

  /** There is such a class, for any page size and any window. */
  lemma {:induction false} ClassExists(lo: int, hi: int, space: GistInsert.Space<seq<int>>)
    requires GistInsert.Roomy(space)
    ensures var c := CodedClass(lo, hi, space);
      AsCoded(c) && Windowed(c, lo, hi) && c.space == space && GistInsert.Sound(c)
  {
    hide Above, InWindow, IsKey, AdjustedAs, UnitedAs, DividedAs, CodedAdjust, CodedUnion, CodedPick,
      GistInsert.Sound, GistInsert.Roomy;
    forall a, b | Valid(a) && Valid(b) ensures AdjustedAs(a, b, CodedAdjust(a, b)) {
      AdjustCoded(a, b);
    }
    forall ks | ks != [] && GistInsert.AllValid(Valid, ks) ensures UnitedAs(ks, CodedUnion(ks)) {
      UnionCoded(ks);
    }
    forall ks | |ks| >= 3 && GistInsert.AllValid(Valid, ks) ensures DividedAs(ks, CodedPick(ks)) {
      PickCoded(ks);
    }
    CodedIsSound(CodedClass(lo, hi, space), lo, hi);
  }

  lemma {:induction false} ValidWindow(k: seq<int>)
    ensures Valid(k) <==> InWindow(MIN, MAX + 1, k)
  {
  }

  lemma {:induction false} AdjustCoded(a: seq<int>, b: seq<int>)
    requires Valid(a) && Valid(b)
    ensures AdjustedAs(a, b, CodedAdjust(a, b))
  {
    hide Stores, Returns, Listing, Elems, StoredAs, InWindow, Sized, Valid;
    ValidWindow(a);
    ValidWindow(b);
    PairInWindow(MIN, MAX + 1, a, b);
    ValidWindow(Listing(Elems(a) + Elems(b)));
  }

  lemma {:induction false} UnionCoded(ks: seq<seq<int>>)
    requires GistInsert.AllValid(Valid, ks)
    ensures UnitedAs(ks, CodedUnion(ks))
  {
    hide Stores, Returns, Listing, AllElems, StoredAs, InWindow, Sized, Valid;
    forall i | 0 <= i < |ks| ensures InWindow(MIN, MAX + 1, ks[i]) {
      ValidWindow(ks[i]);
    }
    AllInWindow(MIN, MAX + 1, ks);
    ValidWindow(Listing(AllElems(ks)));
  }

  lemma {:induction false} PickCoded(ks: seq<seq<int>>)
    requires |ks| >= 3 && GistInsert.AllValid(Valid, ks)
    ensures DividedAs(ks, CodedPick(ks))
  {
    hide Stores, Returns, Listing, AllElems, StoredAs, Sized, Valid, UnionsFit, Divides, GistInsert.OffsetsFrom2;
    var rest := ks[2..];
    forall i | 0 <= i < |rest| ensures InWindow(MIN, MAX + 1, rest[i]) {
      ValidWindow(ks[i + 2]);
    }
    AllInWindow(MIN, MAX + 1, rest);
    ValidWindow(Listing(AllElems(rest)));
    FirstApartDivides(ks);
  }

  lemma {:induction false} FirstApartDivides(ks: seq<seq<int>>)
    requires |ks| >= 3 && GistInsert.AllValid(Valid, ks)
    ensures Divides(ks, [1], GistInsert.OffsetsFrom2(|ks| - 2), ks[1], Listing(AllElems(ks[2..])))
  {
    hide Elems, AllElems, Listing, Offsets, GistInsert.OffsetsFrom2, Above;
    var right := GistInsert.OffsetsFrom2(|ks| - 2);
    GistInsert.AllOffsets(|ks| - 1, right);
    FirstLeast(ks);
    RestLeast(ks, right);
  }

  lemma {:induction false} FirstLeast(ks: seq<seq<int>>)
    requires |ks| >= 3 && Valid(ks[1])
    ensures IsLeast(ks, Above, [1], ks[1])
  {
    hide Elems;
    forall c | AboveAll(ks, Above, [1], c) ensures Above(c, ks[1]) {
      assert Above(c, ks[[1][0]]);
    }
  }

  lemma {:induction false} RestLeast(ks: seq<seq<int>>, right: seq<int>)
    requires |ks| >= 3 && |right| == |ks| - 2 && forall i :: 0 <= i < |right| ==> right[i] == i + 2
    ensures IsLeast(ks, Above, right, Listing(AllElems(ks[2..])))
  {
    hide Elems, AllElems, Listing, StrictlySorted;
    var rest := ks[2..];
    var u := Listing(AllElems(rest));
    forall p | 0 <= p < |right| ensures Above(u, ks[right[p]]) {
      assert rest[p] == ks[right[p]];
      EachInAll(rest, p);
    }
    forall c | AboveAll(ks, Above, right, c) ensures Above(c, u) {
      forall i | 0 <= i < |rest| ensures Elems(rest[i]) <= Elems(c) {
        assert Above(c, ks[right[i]]);
      }
      AllWithin(rest, Elems(c));
      assert Above(c, ks[right[0]]);
    }
  }

  lemma {:induction false} AllWithin(ks: seq<seq<int>>, s: set<int>)
    requires forall i :: 0 <= i < |ks| ==> Elems(ks[i]) <= s
    ensures AllElems(ks) <= s
  {
    hide Elems;
    if ks != [] {
      AllWithin(ks[..|ks| - 1], s);
    }
  }

  // ------------------------------------------------ rows that lead to it

  /** Two rows of 199 elements, none of them near a limit. */
  ghost function EvenRow(): (a: seq<int>)
    ensures |a| == 199 && forall i :: 0 <= i < 199 ==> a[i] == 1200000 * i
  {
    seq(199, i => 1200000 * i)
  }

  ghost function OddRow(): (a: seq<int>)
    ensures |a| == 199 && forall i :: 0 <= i < 199 ==> a[i] == 1200000 * i + 600000
  {
    seq(199, i => 1200000 * i + 600000)
  }

  ghost function BothRows(): (a: seq<int>)
    ensures |a| == 398 && forall i :: 0 <= i < 398 ==> a[i] == 600000 * i
  {
    seq(398, i => 600000 * i)
  }

  lemma {:induction false} RowsTogether()
    ensures Valid(EvenRow()) && Valid(OddRow()) && Valid(BothRows())
    ensures Listing(Elems(EvenRow()) + Elems(OddRow())) == BothRows()
    ensures !(Elems(OddRow()) <= Elems(EvenRow()))
  {
    hide Listing;
    var a, b, u := EvenRow(), OddRow(), BothRows();
    forall x | x in Elems(u) ensures x in Elems(a) + Elems(b) {
      var i :| 0 <= i < 398 && u[i] == x;
      if i % 2 == 0 {
        assert a[i / 2] == x;
      } else {
        assert b[i / 2] == x;
      }
    }
    forall x | x in Elems(a) ensures x in Elems(u) {
      var i :| 0 <= i < 199 && a[i] == x;
      assert u[2 * i] == x;
    }
    forall x | x in Elems(b) ensures x in Elems(u) {
      var i :| 0 <= i < 199 && b[i] == x;
      assert u[2 * i + 1] == x;
    }
    assert Elems(u) == Elems(a) + Elems(b);
    OneListing(Listing(Elems(a) + Elems(b)), u);
    assert b[0] in Elems(b) && b[0] !in Elems(a);
  }

  lemma {:induction false} BothRowsSize()
    ensures StoredSize(BothRows()) == 178800100
  {
    hide Widest, StrictlySorted, Greedy;
    var u := BothRows();
    EqualGaps(u, |u| - 1, Widest(u), 600000);
  }

  /** A key above both comes back, with 178800100 elements. */
  lemma {:induction false} RowsRaise(r: GistInsert.Adjusted<seq<int>>)
    requires AdjustedAs(EvenRow(), OddRow(), r)
    ensures Valid(EvenRow()) && Valid(OddRow()) && r.Raised? && Valid(r.key) && |r.key| == 178800100
  {
    hide Stores, Listing, Elems, StrictlySorted, StoredSize;
    RowsTogether();
    BothRowsSize();
    assert Returns(BothRows());
    StoredLength(BothRows(), r.key);
    StoredKey(BothRows(), Key(r.key));
  }

  /** A key of more than 134217724 elements, like that one, can never be widened. */
  lemma {:induction false} WideningFails(k: seq<int>, add: seq<int>, r: GistInsert.Adjusted<seq<int>>)
    requires Valid(k) && Valid(add) && |k| > MAX_DOUBLED && !(Elems(add) <= Elems(k))
    requires AdjustedAs(k, add, r)
    ensures r.NotRaised?
  {
    hide Elems, Listing, StoredSize, Stores;
    var u := Listing(Elems(k) + Elems(add));
    ElemsSize(k);
    ElemsSize(u);
    SubsetSize(Elems(k), Elems(u));
  }

  lemma {:induction false} StoredLength(u: seq<int>, k: seq<int>)
    requires Valid(u) && |u| >= 2 * MAXNUMRANGE && Stores(u, Key(k))
    ensures |k| == StoredSize(u)
  {
    hide Ascending, Covered, Ranges, Covers, Greedily, StoredSize, Granted, Sized;
    assert Sized(2 * |u|);
    var r :| Compression(r, u) && ReadsAs(Ranges(r), u[|u| - 1], Key(k));
    ElemsInt32(u);
    StoredSizeIs(r, u);
  }

  lemma {:induction false} KeysLawful()
    ensures Lawful(IsKey, Above, Above)
  {
  }

  /** After any run of insertions that returns, whatever paths it took and however
      pages were split, an index scan returns just the rows the leaf test accepts.
      For overlap and containment these are the rows of a sequential scan; for a
      Boolean query, exactly when no empty row was inserted or the query fails on
      the empty array; for equality with a non-empty array, after the recheck. */
  lemma {:induction false} IndexAgrees(
    c: GistInsert.OpClass<seq<int>, seq<int>>, ops: seq<GistInsert.Insertion<seq<int>, seq<int>>>, q: Query)
    requires GistInsert.Sound(c) && GistInsert.Proper(c, ops) && GistInsert.After(c, ops).Some? && Proper(q)
    requires forall k, row :: c.isKey(k, row) ==> IsKey(k, row)
    requires forall k, d :: c.above(k, d) ==> Above(k, d)
    ensures var found := Search(GistInsert.After(c, ops).value, k => LeafTest(q, k), k => InnerTest(q, k));
      var rows := GistInsert.Inserted(ops);
      var wanted := multiset(Filter(row => Matches(q, row), rows));
      && multiset(found) == multiset(Filter(row => Accepts(q, row), rows))
      && (q.Overlap? || q.Contains? || q.ContainedBy? ==> multiset(found) == wanted)
      && (q.Boolean? ==> (multiset(found) == wanted <==> ([] !in rows || !Holds(q.items, []))))
      && (q.Same? && q.a != [] ==> multiset(Filter(row => Matches(q, row), found)) == wanted)
  {
    hide LeafTest, InnerTest, Matches, Accepts, IsKey, Above, Holds, GistInsert.Sound;
    KeysLawful();
    forall k, row | IsKey(k, row) ensures LeafTest(q, k) == Accepts(q, row) {
      LeafAccepts(q, k, row);
    }
    forall k, row | Above(k, row) && Accepts(q, row) ensures InnerTest(q, k) {
      InnerSound(q, k, row);
    }
    GistInsert.RunExact(c, ops, Above, row => Accepts(q, row), k => LeafTest(q, k), k => InnerTest(q, k));
    var found := Search(GistInsert.After(c, ops).value, k => LeafTest(q, k), k => InnerTest(q, k));
    Rechecked(q, GistInsert.Inserted(ops), found);
  }

  /** The rows accepted against the rows that match. */
  lemma {:induction false} Rechecked(q: Query, rows: seq<seq<int>>, found: seq<seq<int>>)
    requires Proper(q) && multiset(found) == multiset(Filter(row => Accepts(q, row), rows))
    ensures var wanted := multiset(Filter(row => Matches(q, row), rows));
      && (q.Overlap? || q.Contains? || q.ContainedBy? ==> multiset(found) == wanted)
      && (q.Boolean? ==> (multiset(found) == wanted <==> ([] !in rows || !Holds(q.items, []))))
      && (q.Same? && q.a != [] ==> multiset(Filter(row => Matches(q, row), found)) == wanted)
  {
    hide Holds;
    var f, g := row => Accepts(q, row), row => Matches(q, row);
    GistInsert.FilterBagIff(f, g, rows);
    GistInsert.FilterTwice(f, g, rows, found);
    if q.Boolean? && [] in rows && Holds(q.items, []) {
      assert f([]) && !g([]);
    }
  }

  /** Equality with the empty array finds nothing, so the index and the operator
      agree on it exactly when no row is empty. */
  lemma {:induction false} EmptyEquality(ts: seq<Tree<seq<int>, seq<int>>>)
    ensures var q := Same([]);
      var found := Search(ts, k => LeafTest(q, k), k => InnerTest(q, k));
      found == [] && (Filter(row => Matches(q, row), Rows(ts)) == found <==> [] !in Rows(ts))
  {
    var q := Same([]);
    NothingFound(ts, k => LeafTest(q, k), k => InnerTest(q, k));
    var f := row => Matches(q, row);
    if [] in Rows(ts) {
      StillThere(f, Rows(ts), []);
    } else {
      NoneLeft(f, Rows(ts));
    }
  }

  lemma {:induction false} NothingFound(
    ts: seq<Tree<seq<int>, seq<int>>>, leaf: seq<int> -> bool, inner: seq<int> -> bool)
    requires forall k :: !leaf(k) && !inner(k)
    ensures Search(ts, leaf, inner) == []
    decreases ts
  {
    if ts != [] {
      NothingFound(ts[1..], leaf, inner);
    }
  }

  // ------------------------------------------------------- g_int_picksplit

  function Set(a: seq<int>): set<int> {
    set x | x in a
  }

  /** Elements the union of two entries has beyond their intersection. */
  function Waste(entries: seq<seq<int>>, i: int, j: int): real {
    if 0 <= i < |entries| && 0 <= j < |entries|
    then (|Set(entries[i]) + Set(entries[j])| - |Set(entries[i]) * Set(entries[j])|) as real
    else 0.0
  }

  /** How little it matters on which side entry i goes. */
  function Cost(entries: seq<seq<int>>, l: seq<int>, r: seq<int>, i: int): real {
    if 0 <= i < |entries| then
      var d := (|Set(l) + Set(entries[i])| - |l|) - (|Set(r) + Set(entries[i])| - |r|);
      (if d < 0 then -d else d) as real
    else 0.0
  }

  lemma {:induction false} UnionJoins(u: seq<int>, k: seq<int>, x: seq<int>)
    requires StrictlySorted(u) && Elems(u) == Elems(k) + Elems(x)
    ensures Joins(Above, u, k, x)
  {
    hide Elems;
  }

  /** The union of all entries with any of them can be allocated. */
  ghost predicate UnionsFit(entries: seq<seq<int>>)
    requires entries != []
  {
    forall i :: 0 < i < |entries| ==> Sized(|AllElems(entries[1..])| + |entries[i]|)
  }

  ghost predicate Divides(entries: seq<seq<int>>, left: seq<int>, right: seq<int>, l: seq<int>, r: seq<int>) {
    SplitOk(entries, Above, left, right, l, r) && SplitTight(entries, Above, left, right, l, r)
  }

  /** What a page is divided into: two sides with the least keys above them, stored.
      It fails only where the unions are too long or a key does not come back. */
  ghost predicate DividedAs(entries: seq<seq<int>>, h: Option<GistInsert.Split<seq<int>>>)
    requires entries != []
  {
    (h.Some? ==>
      exists l, r :: Divides(entries, h.value.left, h.value.right, l, r)
        && Stores(l, Key(h.value.l)) && Stores(r, Key(h.value.r)))
    && (h.None? ==>
      !UnionsFit(entries)
      || exists left, right, l, r :: Divides(entries, left, right, l, r) && !(Returns(l) && Returns(r)))
  }

  /** The split with its keys stored; it fails when one of them does not come
      back. */
  method StoreSplit(entries: seq<seq<int>>) returns (h: Option<GistInsert.Split<seq<int>>>)
    requires |entries| >= 3 && forall i :: 0 <= i < |entries| ==> Valid(entries[i])
    ensures GistInsert.Halves(Valid, Above, entries, h) && DividedAs(entries, h)
  {
    hide StrictlySorted, Elems, IsLeast, Offsets, Stores, Returns, UnionsFit;
    var split := PickSplit(entries);
    if split.None? {
      return None;
    }
    var p := split.value;
    SidesValid(entries, p.left, p.l);
    SidesValid(entries, p.right, p.r);
    var sl := Store(p.l);
    var sr := Store(p.r);
    assert Divides(entries, p.left, p.right, p.l, p.r);
    if !sl.Key? || !sr.Key? {
      return None;
    }
    StoredKey(p.l, sl);
    StoredKey(p.r, sr);
    RaiseKey(entries, Above, p.left, p.l, sl.elems);
    RaiseKey(entries, Above, p.right, p.r, sr.elems);
    return Some(GistInsert.Split(p.left, p.right, sl.elems, sr.elems));
  }

  /** The least key above valid entries is valid. */
  lemma {:induction false} SidesValid(entries: seq<seq<int>>, side: seq<int>, k: seq<int>)
    requires IsLeast(entries, Above, side, k) && forall i :: 0 <= i < |entries| ==> Valid(entries[i])
    ensures Valid(k)
  {
    hide IsLeast, Valid;
    forall i | 0 <= i < |entries| ensures InWindow(MIN, MAX + 1, entries[i]) {
      ValidWindow(entries[i]);
    }
    SideInWindow(MIN, MAX + 1, entries, side, k);
    ValidWindow(k);
  }

  /** It lies in every window they do: otherwise a smaller one, without the element
      that is outside, would be above them too. */
  lemma {:induction false} SideInWindow(lo: int, hi: int, entries: seq<seq<int>>, side: seq<int>, k: seq<int>)
    requires IsLeast(entries, Above, side, k) && forall i :: 0 <= i < |entries| ==> InWindow(lo, hi, entries[i])
    ensures InWindow(lo, hi, k)
  {
    LeastSorted(entries, side, k);
    forall x | x in Elems(k) ensures IsInt32(x) && lo <= x < hi {
      if !(IsInt32(x) && lo <= x < hi) {
        var i :| 0 <= i < |k| && k[i] == x;
        var c := k[..i] + k[i + 1..];
        WithoutOne(k, i, c);
        forall p | 0 <= p < |side| ensures Above(c, entries[side[p]]) {
          assert Above(k, entries[side[p]]) && x !in Elems(entries[side[p]]);
        }
        assert AboveAll(entries, Above, side, c);
      }
    }
  }

  lemma {:induction false} LeastSorted(entries: seq<seq<int>>, side: seq<int>, k: seq<int>)
    requires IsLeast(entries, Above, side, k)
    ensures StrictlySorted(k)
  {
    assert Above(k, k);
  }

  lemma {:induction false} WithoutOne(k: seq<int>, i: nat, c: seq<int>)
    requires StrictlySorted(k) && i < |k| && c == k[..i] + k[i + 1..]
    ensures StrictlySorted(c) && Elems(c) == Elems(k) - {k[i]}
  {
    forall j | 0 <= j < |k| && j != i ensures k[j] in c {
      assert c[if j < i then j else j - 1] == k[j];
    }
  }

  /** Whether the union of two arrays can be allocated. */
  method UnionFits(a: seq<int>, b: seq<int>) returns (ok: bool)
    ensures ok <==> Sized(|a| + |b|)
  {
    hide Sized, Granted;
    var n := |a| + |b|;
    var cells := Allocate(Wrap(n), n);
    SizedGranted(n);
    return cells.Some? && cells.value == n;
  }

  /** The unions in the search for the seeds: of all pairs but those with the last
      entry. */
  method PairsFit(entries: seq<seq<int>>, n: nat) returns (ok: bool)
    requires 1 <= n == |entries| - 1
    ensures ok <==> forall i, j :: 1 <= i < j < n ==> Sized(|entries[i]| + |entries[j]|)
  {
    hide Sized;
    for i := 1 to n
      invariant forall x, y :: 1 <= x < i && x < y < n ==> Sized(|entries[x]| + |entries[y]|)
    {
      for j := i + 1 to n
        invariant forall x, y :: 1 <= x < i && x < y < n ==> Sized(|entries[x]| + |entries[y]|)
        invariant forall y :: i < y < j ==> Sized(|entries[i]| + |entries[y]|)
      {
        var fits := UnionFits(entries[i], entries[j]);
        if !fits {
          return false;
        }
      }
    }
    return true;
  }

  /** The unions of a key with every entry. */
  method CostsFit(entries: seq<seq<int>>, k: seq<int>) returns (ok: bool)
    requires entries != []
    ensures ok <==> forall i :: 1 <= i < |entries| ==> Sized(|k| + |entries[i]|)
  {
    hide Sized;
    for i := 1 to |entries|
      invariant forall x :: 1 <= x < i ==> Sized(|k| + |entries[x]|)
    {
      var fits := UnionFits(k, entries[i]);
      if !fits {
        return false;
      }
    }
    return true;
  }

  /** A key made of entries is no longer than their union. */
  lemma {:induction false} MadeOfEntries(entries: seq<seq<int>>, k: seq<int>, i: int)
    requires |entries| > 1 && StrictlySorted(k) && Elems(k) <= AllElems(entries[1..]) && 0 < i < |entries|
    ensures UnionsFit(entries) ==> Sized(|k| + |entries[i]|)
    ensures Elems(entries[i]) <= AllElems(entries[1..])
  {
    hide AllElems;
    ElemsSize(k);
    SubsetSize(Elems(k), AllElems(entries[1..]));
    assert entries[1..][i - 1] == entries[i];
    EachInAll(entries[1..], i - 1);
  }

  /** Where all unions fit, so do those of two entries. */
  lemma {:induction false} PairsMayFit(entries: seq<seq<int>>)
    requires |entries| > 1 && UnionsFit(entries) && forall i :: 0 <= i < |entries| ==> StrictlySorted(entries[i])
    ensures forall i, j :: 1 <= i < |entries| && 1 <= j < |entries| ==> Sized(|entries[i]| + |entries[j]|)
  {
    hide UnionsFit, StrictlySorted, Elems, AllElems, Sized;
    forall i, j | 1 <= i < |entries| && 1 <= j < |entries| ensures Sized(|entries[i]| + |entries[j]|) {
      assert entries[1..][i - 1] == entries[i];
      EachInAll(entries[1..], i - 1);
      MadeOfEntries(entries, entries[i], j);
    }
  }

  /** The split of a full page.  Every union on the way must be allocated; all of
      them are when the union of all entries can be, with any of them beside it. */
  method PickSplit(entries: seq<seq<int>>) returns (h: Option<GistInsert.Split<seq<int>>>)
    requires |entries| >= 3 && forall i :: 0 <= i < |entries| ==> StrictlySorted(entries[i])
    ensures h.Some? ==> Divides(entries, h.value.left, h.value.right, h.value.l, h.value.r)
    ensures UnionsFit(entries) ==> h.Some?
    ensures h.Some? ==> forall i, j :: 1 <= i < j < |entries| - 1 ==> Sized(|entries[i]| + |entries[j]|)
  {
    hide StrictlySorted, Sorted, SplitOk, SplitTight, Dealt, Elems, Offsets, InOrder, UnionsFit, Sized, Granted,
      AllElems;
    var n := |entries| - 1;
    ghost var room := UnionsFit(entries);
    if room { PairsMayFit(entries); }
    var ok := PairsFit(entries, n);
    if !ok {
      return None;
    }
    var seed1, seed2 := PickSeeds(n, (i, j) => Waste(entries, i, j));
    var l, r := entries[seed1], entries[seed2];
    var okL := CostsFit(entries, l);
    var okR := CostsFit(entries, r);
    if !okL || !okR {
      return None;
    }
    var order := SortOffsets(n, (i, j) => Cost(entries, l, r, i) <= Cost(entries, l, r, j));
    h := Deal(entries, order, seed1, seed2);
  }

  /** The entries dealt out in that order. */
  method Deal(entries: seq<seq<int>>, order: seq<int>, seed1: int, seed2: int)
    returns (h: Option<GistInsert.Split<seq<int>>>)
    requires |entries| >= 3 && forall i :: 0 <= i < |entries| ==> StrictlySorted(entries[i])
    requires multiset(order) == multiset(Offsets(|entries| - 1)) && 1 <= seed1 < seed2 < |entries|
    ensures h.Some? ==> Divides(entries, h.value.left, h.value.right, h.value.l, h.value.r)
    ensures UnionsFit(entries) ==> h.Some?
  {
    hide StrictlySorted, Sorted, SplitOk, SplitTight, Dealt, Elems, Offsets, InOrder, Joins, UnionsFit, Sized, Granted,
      AllElems;
    ghost var all := AllElems(entries[1..]);
    ghost var room := UnionsFit(entries);
    var l, r := entries[seed1], entries[seed2];
    EntryWithin(entries, seed1);
    EntryWithin(entries, seed2);
    var left, right: seq<int> := [], [];
    DealStart(entries, Above, order, seed1, seed2, l, r);
    var j := 0;
    while j < |order|
      invariant 0 <= j <= |order| && StrictlySorted(l) && StrictlySorted(r)
      invariant Elems(l) <= all && Elems(r) <= all
      invariant Dealt(entries, Above, order, j, left, right, seed1, seed2, l, r)
    {
      OffsetBounds(order, |entries| - 1, j);
      var i := order[j];
      if i == seed1 {
        DealtSeed(entries, Above, order, j, left, right, seed1, seed2, l, r);
        DealLeft(entries, Above, order, j, left, right, seed1, seed2, l, r, l);
        left := left + [i];
      } else if i == seed2 {
        DealtSeed(entries, Above, order, j, left, right, seed1, seed2, l, r);
        DealRight(entries, Above, order, j, left, right, seed1, seed2, l, r, r);
        right := right + [i];
      } else {
        MadeOfEntries(entries, l, i);
        MadeOfEntries(entries, r, i);
        var unionL := SortedUnion(l, entries[i]);
        var unionR := SortedUnion(r, entries[i]);
        if unionL.None? || unionR.None? {
          return None;
        }
        if (|unionL.value| - |l|) as real < (|unionR.value| - |r|) as real + Wish(|left|, |right|, 0.01) {
          DealLeft(entries, Above, order, j, left, right, seed1, seed2, l, r, unionL.value);
          l, left := unionL.value, left + [i];
        } else {
          DealRight(entries, Above, order, j, left, right, seed1, seed2, l, r, unionR.value);
          r, right := unionR.value, right + [i];
        }
      }
      j := j + 1;
    }
    DealtAll(entries, Above, order, left, right, seed1, seed2, l, r);
    h := Some(GistInsert.Split(left, right, l, r));
  }

  lemma {:induction false} EntryWithin(entries: seq<seq<int>>, i: int)
    requires 0 < i < |entries|
    ensures Elems(entries[i]) <= AllElems(entries[1..])
  {
    hide Elems, AllElems;
    assert entries[1..][i - 1] == entries[i];
    EachInAll(entries[1..], i - 1);
  }

  method SortedUnion(k: seq<int>, e: seq<int>) returns (u: Option<seq<int>>)
    requires StrictlySorted(k) && StrictlySorted(e)
    ensures u.Some? <==> Sized(|k| + |e|)
    ensures u.Some? ==> StrictlySorted(u.value) && Joins(Above, u.value, k, e) && Elems(u.value) == Elems(k) + Elems(e)
  {
    hide StrictlySorted, Sorted, Elems, Joins, Sized, Granted;
    StrictIsSorted(k);
    StrictIsSorted(e);
    var r := InnerUnion(k, e);
    if !r.Key? {
      return None;
    }
    UnionJoins(r.elems, k, e);
    return Some(r.elems);
  }
}
