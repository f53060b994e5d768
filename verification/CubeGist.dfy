/** The gist_cube_ops operator class: an inner key is the smallest box around the
    boxes below it.  No overlapping, equal or containing box is ever missed;
    a box contained in the query can be, and it is stated when. */
module CubeGist {
  import opened Common
  import opened Cube
  import opened Gist
  import GistInsert

  ghost predicate IsKey(k: Box, row: Box) {
    k == row && Valid(row)
  }

  /** At least as wide, in at least as many dimensions. */
  ghost predicate Above(k: Box, c: Box) {
    Valid(k) && k.dim >= c.dim && Wider(k, c)
  }

  lemma {:induction false} KeysLawful()
    ensures Lawful(IsKey, Above, Above)
  {
    hide Lo, Hi;
    forall k, c, v | Above(k, c) && Above(c, v) ensures Above(k, v) {
      AboveTrans(k, c, v);
    }
  }

  lemma {:induction false} AboveTrans(k: Box, c: Box, v: Box)
    requires Above(k, c) && Above(c, v)
    ensures Above(k, v)
  {
    hide Lo, Hi;
    forall i | 0 <= i ensures Lo(k, i) <= Lo(v, i) && Hi(v, i) <= Hi(k, i) {
      assert Lo(k, i) <= Lo(c, i) <= Lo(v, i);
    }
  }

  lemma {:induction false} AboveTransitive()
    ensures forall a, b, k :: Above(a, b) && Above(b, k) ==> Above(a, k)
  {
    forall a, b, k | Above(a, b) && Above(b, k) ensures Above(a, k) {
      AboveTrans(a, b, k);
    }
  }

  /** Support functions that keep the contracts of this module make a sound class. */
  lemma {:induction false} SupportedIsSound(c: GistInsert.OpClass<Box, Box>)
    requires c.valid == Valid && c.above == Above && forall k, row :: c.isKey(k, row) ==> IsKey(k, row)
    requires GistInsert.Supported(c)
    ensures GistInsert.Sound(c)
  {
    hide Above, GistInsert.Supported;
    AboveTransitive();
  }

  lemma {:induction false} AboveSelf(b: Box)
    requires Valid(b)
    ensures Above(b, b)
  {
    hide Lo, Hi;
  }

  lemma {:induction false} JoinedAbove(u: Box, a: Box, b: Box)
    requires Valid(u) && u.dim >= a.dim && u.dim >= b.dim && Joined(u, a, b)
    ensures Above(u, a) && Above(u, b)
  {
    hide Lo, Hi;
  }

  /** `g_cube_union`; the caller passes a single entry twice. */
  method Union(entries: seq<Box>) returns (out: Box)
    requires |entries| >= 2 && forall i :: 0 <= i < |entries| ==> Valid(entries[i])
    ensures GistInsert.Unites(Valid, Above, entries, Some(out))
    ensures forall c :: (forall i :: 0 <= i < |entries| ==> Inside(entries[i], c)) ==> Inside(out, c)
  {
    hide Joined, Inside, Wider;
    out := entries[0];
    AboveSelf(out);
    var i := 1;
    while i < |entries|
      invariant 1 <= i <= |entries| && Valid(out)
      invariant forall j :: 0 <= j < i ==> Above(out, entries[j])
      invariant forall c :: (forall j :: 0 <= j < |entries| ==> Inside(entries[j], c)) ==> Inside(out, c)
    {
      ghost var tmp := out;
      out := UnionV0(out, entries[i]);
      JoinedAbove(out, tmp, entries[i]);
      forall j | 0 <= j < i ensures Above(out, entries[j]) {
        AboveTrans(out, tmp, entries[j]);
      }
      i := i + 1;
    }
  }

  /** `gistgetadjusted` for this class, with `g_cube_same`. */
  method Adjust(was: Box, add: Box) returns (r: GistInsert.Adjusted<Box>)
    requires Valid(was) && Valid(add)
    ensures GistInsert.Adjusts(Valid, Above, was, add, r) && !r.NotRaised?
    ensures r.Raised? ==> forall c :: Inside(was, c) && Inside(add, c) ==> Inside(r.key, c)
  {
    hide Joined, Inside, Lo, Hi;
    var u := Union([was, add]);
    assert [was, add][0] == was && [was, add][1] == add;
    assert forall c :: Inside(was, c) && Inside(add, c) ==> forall i :: 0 <= i < 2 ==> Inside([was, add][i], c);
    var c := CmpV0(was, u);
    if c == 0 {
      SameAbove(was, u, add);
      return GistInsert.Enough;
    }
    return GistInsert.Raised(u);
  }

  lemma {:induction false} SameAbove(a: Box, u: Box, b: Box)
    requires Valid(a) && SameBox(a, u) && Above(u, b)
    ensures Above(a, b)
  {
    forall i | 0 <= i ensures Lo(a, i) <= Lo(b, i) && Hi(b, i) <= Hi(a, i) {
      assert Lo(a, i) == Lo(u, i) && Hi(a, i) == Hi(u, i);
      assert Lo(u, i) <= Lo(b, i);
    }
  }

  /** `g_cube_picksplit`.  How the seeds are valued and what a box measures only
      steer the choice, so any measures will do; the code updates the size of the
      right side with that of the left. */
  method PickSplit(entries: seq<Box>, waste: (int, int) -> real, size: Box -> real)
    returns (left: seq<int>, right: seq<int>, l: Box, r: Box)
    requires |entries| >= 3 && forall i :: 0 <= i < |entries| ==> Valid(entries[i])
    ensures GistInsert.Halves(Valid, Above, entries, Some(GistInsert.Split(left, right, l, r)))
    ensures SplitTight(entries, Above, left, right, l, r)
  {
    hide SplitOk, SplitTight, Dealt, Above, Offsets, Joins;
    var n := |entries| - 1;
    var seed1, seed2 := PickSeeds(n, waste);
    l := Raise(entries[seed1], entries[seed1]);
    r := Raise(entries[seed2], entries[seed2]);
    var sizeL, sizeR := size(l), size(r);
    left, right := [], [];
    ghost var order := Offsets(n);
    Alone(l, entries[seed1]);
    Alone(r, entries[seed2]);
    DealStart(entries, Above, order, seed1, seed2, l, r);
    var i := 1;
    while i <= n
      invariant 1 <= i <= n + 1 && Valid(l) && Valid(r)
      invariant Dealt(entries, Above, order, i - 1, left, right, seed1, seed2, l, r)
    {
      if i == seed1 {
        DealtSeed(entries, Above, order, i - 1, left, right, seed1, seed2, l, r);
        DealLeft(entries, Above, order, i - 1, left, right, seed1, seed2, l, r, l);
        left := left + [i];
      } else if i == seed2 {
        DealtSeed(entries, Above, order, i - 1, left, right, seed1, seed2, l, r);
        DealRight(entries, Above, order, i - 1, left, right, seed1, seed2, l, r, r);
        right := right + [i];
      } else {
        var unionL := Raise(l, entries[i]);
        var unionR := Raise(r, entries[i]);
        if size(unionL) - sizeL < size(unionR) - sizeR {
          TakeLeft(entries, order, i - 1, left, right, seed1, seed2, l, r, unionL);
          l, sizeL, left := unionL, size(unionL), left + [i];
        } else {
          TakeRight(entries, order, i - 1, left, right, seed1, seed2, l, r, unionR);
          r, sizeR, right := unionR, size(unionL), right + [i];
        }
      }
      i := i + 1;
    }
    DealtAll(entries, Above, order, left, right, seed1, seed2, l, r);
  }

  lemma {:induction false} Alone(u: Box, a: Box)
    requires Joins(Above, u, a, a)
    ensures Above(u, a) && forall c :: Above(c, a) ==> Above(c, u)
  {
    hide Above;
  }

  /** A key made to hold one more box. */
  method Raise(a: Box, b: Box) returns (u: Box)
    requires Valid(a) && Valid(b)
    ensures Valid(u) && Joins(Above, u, a, b) && Above(u, b)
  {
    u := UnionV0(a, b);
    JoinedAbove(u, a, b);
    forall k | Above(a, k) ensures Above(u, k) {
      AboveTrans(u, a, k);
    }
    forall k | Above(k, a) && Above(k, b) ensures Above(k, u) {
      JoinedBelow(u, a, b, k);
    }
  }

  lemma {:induction false} JoinedBelow(u: Box, a: Box, b: Box, k: Box)
    requires Joined(u, a, b) && u.dim == (if a.dim >= b.dim then a.dim else b.dim) && Above(k, a) && Above(k, b)
    ensures Above(k, u)
  {
    hide Lo, Hi;
    forall i | 0 <= i ensures Lo(k, i) <= Lo(u, i) && Hi(u, i) <= Hi(k, i) {
      assert Lo(k, i) <= Lo(a, i) && Lo(k, i) <= Lo(b, i);
    }
  }

  lemma {:induction false} TakeLeft(
    entries: seq<Box>, order: seq<int>, j: int, left: seq<int>, right: seq<int>, seed1: int, seed2: int,
    l: Box, r: Box, l': Box)
    requires Dealt(entries, Above, order, j, left, right, seed1, seed2, l, r)
    requires 0 <= j < |order| && 0 <= order[j] < |entries| && order[j] != seed2
    requires Joins(Above, l', l, entries[order[j]])
    ensures Dealt(entries, Above, order, j + 1, left + [order[j]], right, seed1, seed2, l', r)
  {
    hide Dealt, Above;
    DealLeft(entries, Above, order, j, left, right, seed1, seed2, l, r, l');
  }

  lemma {:induction false} TakeRight(
    entries: seq<Box>, order: seq<int>, j: int, left: seq<int>, right: seq<int>, seed1: int, seed2: int,
    l: Box, r: Box, r': Box)
    requires Dealt(entries, Above, order, j, left, right, seed1, seed2, l, r)
    requires 0 <= j < |order| && 0 <= order[j] < |entries| && order[j] != seed1
    requires Joins(Above, r', r, entries[order[j]])
    ensures Dealt(entries, Above, order, j + 1, left, right + [order[j]], seed1, seed2, l, r')
  {
    hide Dealt, Above;
    DealRight(entries, Above, order, j, left, right, seed1, seed2, l, r, r');
  }

  // ------------------------------------------------------------- queries

  /** The operators: &&, =, @> and <@ of a stored box and b. */
  datatype Query = Overlaps(b: Box) | Same(b: Box) | Holds(b: Box) | HeldBy(b: Box)

  ghost predicate Matches(q: Query, row: Box) {
    match q
    case Overlaps(b) => Intersect(row, b)
    case Same(b) => SameBox(row, b)
    case Holds(b) => Contains(row, b)
    case HeldBy(b) => Contains(b, row)
  }

  ghost predicate InnerTest(q: Query, k: Box) {
    match q
    case Overlaps(b) => Intersect(k, b)
    case Same(b) => Contains(k, b)
    case Holds(b) => Contains(k, b)
    case HeldBy(b) => Intersect(k, b)
  }

  /** `g_cube_leaf_consistent` and `g_cube_internal_consistent`; a leaf is tested
      with the operator itself. */
  method Consistent(key: Box, q: Query, leaf: bool) returns (r: bool)
    requires Valid(key) && Valid(q.b)
    ensures r <==> if leaf then Matches(q, key) else InnerTest(q, key)
  {
    hide Intersect, Contains, SameBox;
    match q
    case Overlaps(b) =>
      r := OverlapV0(key, b);
    case Same(b) =>
      if leaf {
        var c := CmpV0(key, b);
        r := c == 0;
      } else {
        r := ContainsV0(key, b);
      }
    case Holds(b) =>
      r := ContainsV0(key, b);
    case HeldBy(b) =>
      if leaf {
        r := ContainsV0(b, key);
      } else {
        r := OverlapV0(key, b);
      }
  }

  // ------------------------------------------------------------ the scan

  /** For a box contained in the query, no key above it is refused exactly when
      the query holds zero in the dimensions the box lacks. */
  lemma {:induction false} HeldByIff(b: Box, row: Box)
    requires Valid(row) && Contains(b, row)
    ensures (forall k :: Above(k, row) ==> InnerTest(HeldBy(b), k)) <==> HoldsZero(b, row)
  {
    if forall k :: Above(k, row) ==> InnerTest(HeldBy(b), k) {
      AboveSelf(row);
      assert InnerTest(HeldBy(b), row);
      MeetsIffIntersect(row, b);
      forall i | row.dim <= i < b.dim ensures Lo(b, i) <= 0.0 <= Hi(b, i) {
        assert Lo(row, i) == 0.0 == Hi(row, i);
      }
    }
    if HoldsZero(b, row) {
      forall k | Above(k, row) ensures InnerTest(HeldBy(b), k) {
        MeetsAbove(b, row, k);
        MeetsIffIntersect(k, b);
      }
    }
  }

  lemma {:induction false} MeetsAbove(b: Box, row: Box, k: Box)
    requires Contains(b, row) && HoldsZero(b, row) && Above(k, row)
    ensures Meets(k, b)
  {
    InsideIffContains(row, b);
    InsideIffWider(row, b);
    hide Lo, Hi;
    forall i | 0 <= i ensures Lo(k, i) <= Hi(b, i) && Lo(b, i) <= Hi(k, i) {
      assert Lo(k, i) <= Lo(row, i) && Lo(b, i) <= Lo(row, i);
    }
  }

  lemma {:induction false} InnerSound(q: Query, k: Box, row: Box)
    requires Valid(row) && Above(k, row) && Matches(q, row) && (q.HeldBy? ==> HoldsZero(q.b, row))
    ensures InnerTest(q, k)
  {
    match q
    case Overlaps(b) => OverlapsAbove(b, row, k);
    case Same(b) => ContainsAbove(b, row, k);
    case Holds(b) => ContainsAbove(b, row, k);
    case HeldBy(b) => HeldByIff(b, row);
  }

  /** The keys the inner test lets pass are those that can stand above a match, a
      contained row being one the query also has room for in the dimensions it lacks;
      for equality it also lets pass keys that cannot hold the box in all dimensions. */
  lemma {:induction false} InnerTight(q: Query, k: Box)
    requires Valid(k) && Valid(q.b)
    ensures !q.Same? ==>
      (InnerTest(q, k)
       <==> exists row :: Valid(row) && Above(k, row) && Matches(q, row) && (q.HeldBy? ==> HoldsZero(q.b, row)))
    ensures q.Same? ==>
      ((exists row :: Valid(row) && Above(k, row) && Matches(q, row))
       <==> InnerTest(q, k) && k.dim >= q.b.dim && HoldsZero(k, q.b))
  {
    hide InnerTest, Matches, Above, HoldsZero;
    forall row | Valid(row) && Above(k, row) && Matches(q, row) && (q.HeldBy? ==> HoldsZero(q.b, row))
      ensures InnerTest(q, k)
    {
      InnerSound(q, k, row);
    }
    if q.Same? {
      SameTight(q.b, k);
    } else if InnerTest(q, k) {
      var row := RowBelow(q, k);
      assert Valid(row) && Above(k, row) && Matches(q, row) && (q.HeldBy? ==> HoldsZero(q.b, row));
    }
  }

  lemma {:induction false} RowBelow(q: Query, k: Box) returns (row: Box)
    requires Valid(k) && InnerTest(q, k) && !q.Same?
    ensures Valid(row) && Above(k, row) && Matches(q, row) && (q.HeldBy? ==> HoldsZero(q.b, row))
  {
    if q.HeldBy? {
      row := PointBelow(q.b, k);
    } else {
      row := k;
      AboveSelf(k);
    }
  }

  /** A point common to both, in the dimensions of k. */
  lemma {:induction false} PointBelow(b: Box, k: Box) returns (row: Box)
    requires Valid(k) && Intersect(k, b)
    ensures Valid(row) && Above(k, row) && Contains(b, row) && HoldsZero(b, row)
  {
    var p: Point :| In(p, k) && In(p, b);
    row := PointBox(p, k.dim);
    forall i | 0 <= i ensures Lo(row, i) == Hi(row, i) == if i < k.dim then p(i) else 0.0 {
      PointAt(p, k.dim, i);
    }
    forall i | k.dim <= i ensures p(i) == 0.0 {
      assert Lo(k, i) <= p(i) <= Hi(k, i);
    }
    hide Lo, Hi, PointBox;
    forall i | 0 <= i ensures Lo(k, i) <= Lo(row, i) && Hi(row, i) <= Hi(k, i) {
      assert Lo(k, i) <= p(i) <= Hi(k, i);
    }
    forall i | 0 <= i ensures Lo(b, i) <= Lo(row, i) && Hi(row, i) <= Hi(b, i) {
      assert Lo(b, i) <= p(i) <= Hi(b, i);
    }
  }

  ghost function PointBox(p: Point, n: nat): (b: Box)
    ensures Valid(b) && b.dim == n
  {
    Box(n, seq(2 * n, i requires 0 <= i < 2 * n => if i < n then p(i) else p(i - n)))
  }

  lemma {:induction false} PointAt(p: Point, n: nat, i: int)
    requires 0 <= i
    ensures Lo(PointBox(p, n), i) == Hi(PointBox(p, n), i) == if i < n then p(i) else 0.0
  {
  }

  lemma {:induction false} SameTight(b: Box, k: Box)
    requires Valid(k) && Valid(b)
    ensures (exists row :: Valid(row) && Above(k, row) && Matches(Same(b), row))
       <==> InnerTest(Same(b), k) && k.dim >= b.dim && HoldsZero(k, b)
  {
    InsideIffContains(b, k);
    InsideIffWider(b, k);
    hide Lo, Hi, Inside;
    if InnerTest(Same(b), k) && k.dim >= b.dim && HoldsZero(k, b) {
      assert Valid(b) && Above(k, b) && Matches(Same(b), b);
    }
    forall row | Valid(row) && Above(k, row) && SameBox(row, b)
      ensures InnerTest(Same(b), k) && k.dim >= b.dim && HoldsZero(k, b)
    {
      SameSpans(row, b);
      assert Wider(k, b);
    }
  }

  lemma {:induction false} SameSpans(a: Box, b: Box)
    requires SameBox(a, b)
    ensures forall i :: 0 <= i ==> Lo(a, i) == Lo(b, i) && Hi(a, i) == Hi(b, i)
  {
    forall i | 0 <= i ensures Lo(a, i) == Lo(b, i) && Hi(a, i) == Hi(b, i) {
      if i >= a.dim {
        assert Lo(a, i) == 0.0 == Hi(a, i) && Lo(b, i) == 0.0 == Hi(b, i);
      }
    }
  }

  lemma {:induction false} OverlapsAbove(b: Box, row: Box, k: Box)
    requires Above(k, row) && Intersect(row, b)
    ensures Intersect(k, b)
  {
    MeetsIffIntersect(row, b);
    MeetsIffIntersect(k, b);
    hide Lo, Hi, Intersect;
    forall i | 0 <= i ensures Lo(k, i) <= Hi(b, i) && Lo(b, i) <= Hi(k, i) {
      assert Lo(k, i) <= Lo(row, i) && Lo(row, i) <= Hi(b, i);
    }
  }

  lemma {:induction false} ContainsAbove(b: Box, row: Box, k: Box)
    requires Above(k, row) && (Contains(row, b) || SameBox(row, b))
    ensures Contains(k, b)
  {
    hide Lo, Hi;
    forall i | 0 <= i < b.dim ensures Lo(k, i) <= Lo(b, i) && Hi(b, i) <= Hi(k, i) {
      assert Lo(k, i) <= Lo(row, i) && Lo(row, i) <= Lo(b, i);
    }
  }

  /** After any run of insertions the index returns just the rows of a sequential
      scan, without a recheck; for "contained in", when the query holds zero in
      the dimensions that a contained row lacks. */
  lemma {:induction false} IndexAgrees(
    c: GistInsert.OpClass<Box, Box>, ops: seq<GistInsert.Insertion<Box, Box>>, q: Query)
    requires GistInsert.Sound(c) && GistInsert.Proper(c, ops) && GistInsert.After(c, ops).Some?
    requires forall k, row :: c.isKey(k, row) ==> IsKey(k, row)
    requires forall k, d :: c.above(k, d) ==> Above(k, d)
    requires forall row :: row in GistInsert.Inserted(ops) && q.HeldBy? && Contains(q.b, row) ==> HoldsZero(q.b, row)
    ensures multiset(Search(GistInsert.After(c, ops).value, k => Matches(q, k), k => InnerTest(q, k)))
         == multiset(Filter(row => Matches(q, row), GistInsert.Inserted(ops)))
  {
    hide Above, InnerTest, GistInsert.Sound;
    KeysLawful();
    var covers := (k: Box, row: Box) => Above(k, row) && Valid(row);
    forall k, row | IsKey(k, row) ensures Above(k, row) {
      AboveSelf(row);
    }
    forall k, row | covers(k, row) && row in GistInsert.Inserted(ops) && Matches(q, row) ensures InnerTest(q, k) {
      InnerSound(q, k, row);
    }
    GistInsert.RunExact(c, ops, covers, row => Matches(q, row), k => Matches(q, k), k => InnerTest(q, k));
  }

  // --------------------------------------------- rows that are really lost

  /** Two boxes joined. */
  ghost function Join(a: Box, b: Box): Box {
    var n := if a.dim >= b.dim then a.dim else b.dim;
    Box(n, seq(2 * n, k requires 0 <= k < 2 * n =>
      if k < n then Min(Lo(a, k), Lo(b, k)) else Max(Hi(a, k - n), Hi(b, k - n))))
  }

  lemma {:induction false} JoinJoins(a: Box, b: Box)
    requires Valid(a) && Valid(b)
    ensures Valid(Join(a, b)) && Joined(Join(a, b), a, b)
    ensures Above(Join(a, b), a) && Above(Join(a, b), b)
  {
    var u := Join(a, b);
    forall i | 0 <= i ensures Lo(u, i) == Min(Lo(a, i), Lo(b, i)) && Hi(u, i) == Max(Hi(a, i), Hi(b, i)) {
      if i < u.dim {
        assert u.x[i] == Min(Lo(a, i), Lo(b, i)) && u.x[u.dim + i] == Max(Hi(a, i), Hi(b, i));
      }
    }
    JoinedAbove(u, a, b);
  }

  lemma {:induction false} JoinLaws()
    ensures GistInsert.Joining(Valid, Above, (a, b) => Some(Join(a, b)))
  {
    hide Join, Lo, Hi;
    forall a, b | Valid(a) && Valid(b) ensures Valid(Join(a, b)) && Above(Join(a, b), a) && Above(Join(a, b), b) {
      JoinJoins(a, b);
    }
    forall a | Valid(a) ensures Above(a, a) {
      AboveSelf(a);
    }
    AboveTransitive();
  }

  /** There is a sound class, for any page size, and every run of it returns. */
  lemma {:induction false} ClassExists(space: GistInsert.Space<Box>, ops: seq<GistInsert.Insertion<Box, Box>>)
    requires GistInsert.Roomy(space)
    requires forall i :: 0 <= i < |ops| ==> IsKey(ops[i].key, ops[i].row)
    ensures var c := GistInsert.Plain(Valid, IsKey, Above, (a, b) => Some(Join(a, b)), space);
      GistInsert.Supported(c) && GistInsert.Sound(c) && GistInsert.After(c, ops).Some?
  {
    hide Above, Join, GistInsert.Supported, GistInsert.Total;
    JoinLaws();
    var join := (a, b) => Some(Join(a, b));
    var c := GistInsert.Plain(Valid, IsKey, Above, join, space);
    GistInsert.PlainSupported(Valid, IsKey, Above, join, space);
    GistInsert.PlainTotal(Valid, IsKey, Above, join, space, |ops|);
    SupportedIsSound(c);
    GistInsert.RunNarrow(c, ops, |ops|);
    GistInsert.TotalRuns(c, ops, |ops|);
  }

  // ------------------------------------------------- a table of one row

  /** The same box, whatever the order of its corners. */
  ghost predicate SameSpan(k: Box, row: Box) {
    Valid(k) && k.dim == row.dim && forall i :: 0 <= i ==> Lo(k, i) == Lo(row, i) && Hi(k, i) == Hi(row, i)
  }

  /** The class on an index that holds one row, any number of times. */
  ghost function CopyClass(row: Box, space: GistInsert.Space<Box>): GistInsert.OpClass<Box, Box> {
    GistInsert.Plain(k => SameSpan(k, row), (k, v) => IsKey(k, v) && v == row, Above, (a, b) => Some(Join(a, b)), space)
  }

  lemma {:induction false} CopyJoining(row: Box)
    ensures GistInsert.Joining((k: Box) => SameSpan(k, row), Above, (a, b) => Some(Join(a, b)))
  {
    hide Join, Lo, Hi;
    JoinLaws();
    forall a, b | SameSpan(a, row) && SameSpan(b, row) ensures SameSpan(Join(a, b), row) {
      JoinJoins(a, b);
      JoinDim(a, b);
    }
  }

  lemma {:induction false} JoinDim(a: Box, b: Box)
    requires a.dim == b.dim
    ensures Join(a, b).dim == a.dim
  {
  }

  ghost function Copies(row: Box, n: nat): (ops: seq<GistInsert.Insertion<Box, Box>>)
    ensures |ops| == n && forall i :: 0 <= i < n ==> ops[i] == GistInsert.Insertion(row, row, [])
  {
    if n == 0 then [] else Copies(row, n - 1) + [GistInsert.Insertion(row, row, [])]
  }

  lemma {:induction false} CopySound(row: Box, space: GistInsert.Space<Box>, n: nat)
    requires Valid(row) && GistInsert.Roomy(space)
    ensures var c := CopyClass(row, space);
      GistInsert.Sound(c) && GistInsert.Proper(c, Copies(row, n)) && GistInsert.After(c, Copies(row, n)).Some?
  {
    hide Join, Lo, Hi, Above, GistInsert.Supported, GistInsert.Total;
    CopyJoining(row);
    AboveTransitive();
    var valid, isKey := (k: Box) => SameSpan(k, row), (k, v) => IsKey(k, v) && v == row;
    var join := (a, b) => Some(Join(a, b));
    GistInsert.PlainSupported(valid, isKey, Above, join, space);
    GistInsert.PlainTotal(valid, isKey, Above, join, space, n);
    GistInsert.RunNarrow(CopyClass(row, space), Copies(row, n), n);
    GistInsert.TotalRuns(CopyClass(row, space), Copies(row, n), n);
  }

  // --------------------------------------------------------- a lost row

  ghost function Boxes(row: Box, n: nat): (s: seq<Box>)
    ensures |s| == n && forall i :: 0 <= i < n ==> s[i] == row
  {
    seq(n, _ => row)
  }

  ghost function Leaves(row: Box, n: nat): (s: seq<Tree<Box, Box>>)
    ensures |s| == n && forall i :: 0 <= i < n ==> s[i] == Leaf(row, row)
  {
    seq(n, _ => Leaf(row, row))
  }

  /** There is no room for one copy of the row more beside n. */
  ghost predicate Full(space: GistInsert.Space<Box>, row: Box, n: nat) {
    !space.room(Boxes(row, n), [row])
  }

  lemma {:induction false} FirstFull(space: GistInsert.Space<Box>, row: Box, n: nat) returns (m: nat)
    requires Full(space, row, n)
    ensures m <= n && Full(space, row, m) && forall j :: 0 <= j < m ==> !Full(space, row, j)
  {
    m := 0;
    while !Full(space, row, m)
      invariant m <= n && forall j :: 0 <= j < m ==> !Full(space, row, j)
      decreases n - m
    {
      m := m + 1;
    }
  }

  /** While there is room the root is a leaf page. */
  lemma {:induction false} RootFills(row: Box, space: GistInsert.Space<Box>, n: nat)
    requires Valid(row) && GistInsert.Roomy(space) && forall j :: 0 <= j < n ==> !Full(space, row, j)
    ensures var c := CopyClass(row, space);
      && GistInsert.Sound(c) && GistInsert.Proper(c, Copies(row, n))
      && GistInsert.After(c, Copies(row, n)) == Some(Leaves(row, n))
  {
    hide GistInsert.Sound, CopyClass, GistInsert.PlaceToPage, GistInsert.After, GistInsert.Good, GistInsert.Proper,
      Full;
    var c := CopyClass(row, space);
    CopySound(row, space, n);
    CopyParts(row, space);
    if n == 0 {
      NoCopies(c, row);
    } else {
      RootFills(row, space, n - 1);
      NextCopy(row, n - 1);
      GistInsert.NextRun(c, Copies(row, n - 1), Leaves(row, n - 1), row, row);
      PlacedBehind(c, row, n - 1);
    }
  }

  lemma {:induction false} NoCopies(c: GistInsert.OpClass<Box, Box>, row: Box)
    requires GistInsert.Sound(c) && GistInsert.Proper(c, Copies(row, 0))
    ensures GistInsert.After(c, Copies(row, 0)) == Some(Leaves(row, 0))
  {
    assert Leaves(row, 0) == [];
  }

  lemma {:induction false} NextCopy(row: Box, n: nat)
    ensures Copies(row, n + 1) == Copies(row, n) + [GistInsert.Insertion(row, row, [])]
  {
  }

  lemma {:induction false} CopyParts(row: Box, space: GistInsert.Space<Box>)
    ensures CopyClass(row, space).space == space && (Valid(row) ==> CopyClass(row, space).isKey(row, row))
  {
  }

  lemma {:induction false} PlacedBehind(c: GistInsert.OpClass<Box, Box>, row: Box, n: nat)
    requires GistInsert.Sound(c) && GistInsert.Good(c, Leaves(row, n)) && GistInsert.Good(c, [Leaf(row, row)])
    requires !Full(c.space, row, n)
    ensures GistInsert.PlaceToPage(c, Leaves(row, n), [Leaf(row, row)]) == GistInsert.Grew(Leaves(row, n + 1), row)
  {
    var stay, leaf := Leaves(row, n), Leaf(row, row);
    assert stay + [leaf] == Leaves(row, n + 1);
    assert GistInsert.Keys(stay) == Boxes(row, n) && GistInsert.Keys([leaf]) == [row];
  }

  /** The next copy splits it. */
  lemma {:induction false} RootSplits(row: Box, space: GistInsert.Space<Box>, n: nat)
    requires Valid(row) && GistInsert.Roomy(space) && Full(space, row, n)
    requires forall j :: 0 <= j < n ==> !Full(space, row, j)
    ensures var c := CopyClass(row, space);
      && GistInsert.Sound(c) && GistInsert.Proper(c, Copies(row, n + 1))
      && GistInsert.After(c, Copies(row, n + 1)).Some?
      && forall t :: t in GistInsert.After(c, Copies(row, n + 1)).value ==> t.Node? && SameSpan(t.key, row)
  {
    hide GistInsert.Sound, CopyClass, GistInsert.PlaceToPage, SameSpan, GistInsert.After, GistInsert.Good,
      GistInsert.Proper, Full;
    var c := CopyClass(row, space);
    RootFills(row, space, n);
    CopySound(row, space, n + 1);
    CopyParts(row, space);
    NextCopy(row, n);
    GistInsert.NextRun(c, Copies(row, n), Leaves(row, n), row, row);
    PlacedApart(c, row, n);
    var root := GistInsert.After(c, Copies(row, n + 1)).value;
    forall t | t in root ensures t.Node? && SameSpan(t.key, row) {
      CopyValid(row, space, root, t);
    }
  }

  lemma {:induction false} CopyValid(
    row: Box, space: GistInsert.Space<Box>, page: seq<Tree<Box, Box>>, t: Tree<Box, Box>)
    requires GistInsert.Good(CopyClass(row, space), page) && t in page
    ensures SameSpan(t.key, row)
  {
    assert GistInsert.GoodEntry(CopyClass(row, space), t);
  }

  lemma {:induction false} PlacedApart(c: GistInsert.OpClass<Box, Box>, row: Box, n: nat)
    requires GistInsert.Sound(c) && GistInsert.Good(c, Leaves(row, n)) && GistInsert.Good(c, [Leaf(row, row)])
    requires Full(c.space, row, n)
    ensures var o := GistInsert.PlaceToPage(c, Leaves(row, n), [Leaf(row, row)]);
      o.Failed? || (o.Broke? && forall t :: t in o.parts ==> t.Node?)
  {
    hide GistInsert.Sound, GistInsert.Good, GistInsert.SplitPage;
    var stay, leaf := Leaves(row, n), Leaf(row, row);
    GistInsert.GoodAppend(c, stay, [leaf]);
    assert GistInsert.Keys(stay) == Boxes(row, n) && GistInsert.Keys([leaf]) == [row];
    GistInsert.RoomForOne(c, stay, [leaf]);
    if GistInsert.SplitPage(c, stay + [leaf]).Some? {
      GistInsert.SplitNodes(c, stay + [leaf]);
    }
  }

  /** A contained-by scan that loses a row for which the condition fails: on pages
      of any size that enough copies of it exceed, the copies that first split the
      root are all lost. */
  lemma {:induction false} LostRow(b: Box, row: Box, space: GistInsert.Space<Box>, n: nat) returns (m: nat)
    requires Valid(row) && Contains(b, row) && !HoldsZero(b, row) && GistInsert.Roomy(space) && Full(space, row, n)
    ensures 0 < m <= n + 1
    ensures var c := CopyClass(row, space);
      var q := HeldBy(b);
      && GistInsert.Sound(c) && GistInsert.Proper(c, Copies(row, m)) && GistInsert.After(c, Copies(row, m)).Some?
      && Search(GistInsert.After(c, Copies(row, m)).value, k => Matches(q, k), k => InnerTest(q, k)) == []
      && Filter(box => Matches(q, box), GistInsert.Inserted(Copies(row, m))) == Boxes(row, m)
  {
    hide Contains, HoldsZero, Intersect, Join, Above, GistInsert.Sound, GistInsert.After, CopyClass, SameSpan,
      InnerTest;
    var q := HeldBy(b);
    var full := FirstFull(space, row, n);
    m := full + 1;
    RootSplits(row, space, full);
    var root := GistInsert.After(CopyClass(row, space), Copies(row, m)).value;
    forall t | t in root ensures t.Node? && !InnerTest(q, t.key) {
      RowRefused(b, row, t.key);
    }
    AllRefused(root, k => Matches(q, k), k => InnerTest(q, k));
    AllWanted(row, m, box => Matches(q, box));
  }

  lemma {:induction false} AllRefused(page: seq<Tree<Box, Box>>, leaf: Box -> bool, inner: Box -> bool)
    requires forall t :: t in page ==> t.Node? && !inner(t.key)
    ensures Search(page, leaf, inner) == []
  {
    if page != [] {
      AllRefused(page[1..], leaf, inner);
    }
  }

  lemma {:induction false} AllWanted(row: Box, n: nat, f: Box -> bool)
    requires f(row)
    ensures GistInsert.Inserted(Copies(row, n)) == Boxes(row, n) && Filter(f, Boxes(row, n)) == Boxes(row, n)
  {
    AllInserted(row, n);
    FilterAll(f, Boxes(row, n));
  }

  lemma {:induction false} AllInserted(row: Box, n: nat)
    ensures GistInsert.Inserted(Copies(row, n)) == Boxes(row, n)
  {
    hide Boxes, Copies;
    if n > 0 {
      AllInserted(row, n - 1);
      assert Copies(row, n)[..n - 1] == Copies(row, n - 1);
      assert Boxes(row, n) == Boxes(row, n - 1) + [row];
    } else {
      assert Boxes(row, n) == [] && Copies(row, n) == [];
    }
  }

  lemma {:induction false} FilterAll(f: Box -> bool, s: seq<Box>)
    requires forall i :: 0 <= i < |s| ==> f(s[i])
    ensures Filter(f, s) == s
  {
    if s != [] {
      FilterAll(f, s[1..]);
    }
  }

  lemma {:induction false} RowRefused(b: Box, row: Box, k: Box)
    requires Valid(row) && Contains(b, row) && !HoldsZero(b, row) && SameSpan(k, row)
    ensures !InnerTest(HeldBy(b), k)
  {
    var i :| row.dim <= i < b.dim && !(Lo(b, i) <= 0.0 <= Hi(b, i));
    assert Lo(k, i) == 0.0 == Hi(k, i);
    MeetsIffIntersect(k, b);
  }

  /** A sound class over these keys. */
  ghost predicate CubeClass(c: GistInsert.OpClass<Box, Box>) {
    GistInsert.Sound(c) && (forall k, row :: c.isKey(k, row) ==> IsKey(k, row))
    && forall k, d :: c.above(k, d) ==> Above(k, d)
  }

  ghost predicate Drawn(ops: seq<GistInsert.Insertion<Box, Box>>, table: set<Box>) {
    forall i :: 0 <= i < |ops| ==> ops[i].row in table
  }

  /** Index and sequential scan agree on "contained in b" after every run over a
      table, for every class with pages of a given size, exactly when b holds zero
      in the dimensions that a contained row of the table lacks. */
  lemma {:induction false} HeldByIndexIff(b: Box, table: set<Box>, space: GistInsert.Space<Box>)
    requires GistInsert.Roomy(space)
    requires forall row :: row in table ==> Valid(row) && exists n :: Full(space, row, n)
    ensures (forall c, ops :: Returning(c, ops, space) && Drawn(ops, table) ==> Agrees(c, ops, HeldBy(b)))
       <==> forall row :: row in table && Contains(b, row) ==> HoldsZero(b, row)
  {
    hide Contains, HoldsZero, CubeClass, GistInsert.After, Matches, InnerTest;
    if forall row :: row in table && Contains(b, row) ==> HoldsZero(b, row) {
      forall c, ops | Returning(c, ops, space) && Drawn(ops, table) ensures Agrees(c, ops, HeldBy(b)) {
        InsertedDrawn(ops, table);
        AgreesIf(c, ops, HeldBy(b), space);
      }
    } else {
      var row :| row in table && Contains(b, row) && !HoldsZero(b, row);
      var n :| Full(space, row, n);
      var c, ops := LostRun(b, row, space, n);
      assert Drawn(ops, table);
      assert Returning(c, ops, space) && !Agrees(c, ops, HeldBy(b));
    }
  }

  ghost predicate Returning(
    c: GistInsert.OpClass<Box, Box>, ops: seq<GistInsert.Insertion<Box, Box>>, space: GistInsert.Space<Box>)
  {
    CubeClass(c) && c.space == space
    && GistInsert.Sound(c) && GistInsert.Proper(c, ops) && GistInsert.After(c, ops).Some?
  }

  lemma {:induction false} AgreesIf(
    c: GistInsert.OpClass<Box, Box>, ops: seq<GistInsert.Insertion<Box, Box>>, q: Query, space: GistInsert.Space<Box>)
    requires Returning(c, ops, space)
    requires forall row :: row in GistInsert.Inserted(ops) && q.HeldBy? && Contains(q.b, row) ==> HoldsZero(q.b, row)
    ensures Agrees(c, ops, q)
  {
    hide Contains, HoldsZero, GistInsert.After, Matches, InnerTest, GistInsert.Sound;
    IndexAgrees(c, ops, q);
  }

  lemma {:induction false} LostRun(b: Box, row: Box, space: GistInsert.Space<Box>, n: nat)
    returns (c: GistInsert.OpClass<Box, Box>, ops: seq<GistInsert.Insertion<Box, Box>>)
    requires Valid(row) && Contains(b, row) && !HoldsZero(b, row) && GistInsert.Roomy(space) && Full(space, row, n)
    ensures Returning(c, ops, space) && !Agrees(c, ops, HeldBy(b))
    ensures forall i :: 0 <= i < |ops| ==> ops[i].row == row
  {
    hide Contains, HoldsZero, GistInsert.After, Matches, InnerTest, GistInsert.Sound, Above, IsKey, Join, SameSpan;
    var m := LostRow(b, row, space, n);
    c, ops := CopyClass(row, space), Copies(row, m);
    assert |multiset(Boxes(row, m))| == m;
  }

  lemma {:induction false} InsertedDrawn(ops: seq<GistInsert.Insertion<Box, Box>>, table: set<Box>)
    requires Drawn(ops, table)
    ensures forall row :: row in GistInsert.Inserted(ops) ==> row in table
  {
    if ops != [] {
      InsertedDrawn(ops[..|ops| - 1], table);
    }
  }

  ghost predicate Agrees(c: GistInsert.OpClass<Box, Box>, ops: seq<GistInsert.Insertion<Box, Box>>, q: Query)
    requires GistInsert.Sound(c) && GistInsert.Proper(c, ops) && GistInsert.After(c, ops).Some?
  {
    multiset(Search(GistInsert.After(c, ops).value, k => Matches(q, k), k => InnerTest(q, k)))
    == multiset(Filter(row => Matches(q, row), GistInsert.Inserted(ops)))
  }
}
