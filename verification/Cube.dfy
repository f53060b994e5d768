/** n-dimensional boxes, each given by two opposite corners in any order.  A box
    of fewer dimensions is a box whose missing coordinates are zero. */
module Cube {
  import opened Order

  datatype Box = Box(dim: nat, x: seq<real>)

  predicate Valid(b: Box) {
    |b.x| == 2 * b.dim
  }

  function Min(x: real, y: real): real {
    if x < y then x else y
  }

  function Max(x: real, y: real): real {
    if x > y then x else y
  }

  function Lo(b: Box, i: int): real {
    if 0 <= i < b.dim && Valid(b) then Min(b.x[i], b.x[b.dim + i]) else 0.0
  }

  function Hi(b: Box, i: int): (h: real)
    ensures Lo(b, i) <= h
  {
    if 0 <= i < b.dim && Valid(b) then Max(b.x[i], b.x[b.dim + i]) else 0.0
  }

  // ---------------------------------------------------------- point sets

  type Point = int -> real

  ghost predicate In(p: Point, b: Box) {
    forall i :: 0 <= i ==> Lo(b, i) <= p(i) <= Hi(b, i)
  }

  ghost predicate Inside(b: Box, a: Box) {
    forall p: Point :: In(p, b) ==> In(p, a)
  }

  ghost predicate Intersect(a: Box, b: Box) {
    exists p: Point :: In(p, a) && In(p, b)
  }

  /** Containment, coordinate by coordinate. */
  ghost predicate Wider(a: Box, b: Box) {
    forall i :: 0 <= i ==> Lo(a, i) <= Lo(b, i) && Hi(b, i) <= Hi(a, i)
  }

  lemma {:induction false} InsideIffWider(b: Box, a: Box)
    ensures Inside(b, a) <==> Wider(a, b)
  {
    hide Lo, Hi;
    if Inside(b, a) {
      var p: Point := i => Lo(b, i);
      var q: Point := i => Hi(b, i);
      assert In(p, b) && In(q, b);
      assert In(p, a) && In(q, a);
      forall i | 0 <= i ensures Lo(a, i) <= Lo(b, i) && Hi(b, i) <= Hi(a, i) {
        assert Lo(a, i) <= p(i) && q(i) <= Hi(a, i);
      }
    }
    if Wider(a, b) {
      forall p: Point | In(p, b) ensures In(p, a) {
        forall i | 0 <= i ensures Lo(a, i) <= p(i) <= Hi(a, i) {
          assert Lo(a, i) <= Lo(b, i);
        }
      }
    }
  }

  // ------------------------------------------------------ cube_overlap_v0

  ghost predicate Meets(a: Box, b: Box) {
    forall i :: 0 <= i ==> Lo(a, i) <= Hi(b, i) && Lo(b, i) <= Hi(a, i)
  }

  lemma {:induction false} MeetsIffIntersect(a: Box, b: Box)
    ensures Meets(a, b) <==> Intersect(a, b)
  {
    hide Lo, Hi;
    if Meets(a, b) {
      var p: Point := i => Max(Lo(a, i), Lo(b, i));
      forall i | 0 <= i ensures Lo(a, i) <= p(i) <= Hi(a, i) && Lo(b, i) <= p(i) <= Hi(b, i) {
        assert Lo(a, i) <= Hi(b, i);
      }
      assert In(p, a) && In(p, b);
    }
    if Intersect(a, b) {
      var p: Point :| In(p, a) && In(p, b);
      forall i | 0 <= i ensures Lo(a, i) <= Hi(b, i) && Lo(b, i) <= Hi(a, i) {
        assert Lo(a, i) <= p(i) <= Hi(a, i) && Lo(b, i) <= p(i) <= Hi(b, i);
      }
    }
  }

  /** `cube_overlap_v0`: the boxes have a point in common. */
  method OverlapV0(a': Box, b': Box) returns (r: bool)
    requires Valid(a') && Valid(b')
    ensures r <==> Intersect(a', b')
  {
    MeetsIffIntersect(a', b');
    hide Intersect;
    var a, b := a', b';
    if a.dim < b.dim {
      a, b := b, a;
    }
    var i := 0;
    while i < b.dim
      invariant 0 <= i <= b.dim
      invariant forall j :: 0 <= j < i ==> Lo(a, j) <= Hi(b, j) && Lo(b, j) <= Hi(a, j)
    {
      if Min(a.x[i], a.x[a.dim + i]) > Max(b.x[i], b.x[b.dim + i]) {
        assert Lo(a, i) > Hi(b, i);
        return false;
      }
      if Max(a.x[i], a.x[a.dim + i]) < Min(b.x[i], b.x[b.dim + i]) {
        assert Hi(a, i) < Lo(b, i);
        return false;
      }
      i := i + 1;
    }
    while i < a.dim
      invariant b.dim <= i <= a.dim
      invariant forall j :: 0 <= j < i ==> Lo(a, j) <= Hi(b, j) && Lo(b, j) <= Hi(a, j)
    {
      if Min(a.x[i], a.x[a.dim + i]) > 0.0 {
        assert Lo(a, i) > Hi(b, i);
        return false;
      }
      if Max(a.x[i], a.x[a.dim + i]) < 0.0 {
        assert Hi(a, i) < Lo(b, i);
        return false;
      }
      i := i + 1;
    }
    return true;
  }

  // ----------------------------------------------------- cube_contains_v0

  /** What `cube_contains_v0` decides: it looks at the dimensions of b only. */
  ghost predicate Contains(a: Box, b: Box) {
    forall i :: 0 <= i < b.dim ==> Lo(a, i) <= Lo(b, i) && Hi(b, i) <= Hi(a, i)
  }

  /** The dimensions that b lacks hold zero in a. */
  ghost predicate HoldsZero(a: Box, b: Box) {
    forall i :: b.dim <= i < a.dim ==> Lo(a, i) <= 0.0 <= Hi(a, i)
  }

  /** Containment of point sets is containment as the code decides it and, in
      the dimensions the code ignores, room for zero. */
  lemma {:induction false} InsideIffContains(b: Box, a: Box)
    ensures Inside(b, a) <==> Contains(a, b) && HoldsZero(a, b)
  {
    InsideIffWider(b, a);
    if Wider(a, b) {
      forall i | b.dim <= i < a.dim ensures Lo(a, i) <= 0.0 <= Hi(a, i) {
        assert Lo(b, i) == 0.0 == Hi(b, i);
      }
    }
  }

  /** A box the code takes to contain a point of the line, though no point of
      the box lies on the line. */
  lemma {:induction false} ContainsWithoutMeeting()
    ensures var a, b := Box(2, [0.0, 5.0, 1.0, 6.0]), Box(1, [0.0, 1.0]);
      Valid(a) && Valid(b) && Contains(a, b) && !Inside(b, a) && !Intersect(a, b)
  {
    var a, b := Box(2, [0.0, 5.0, 1.0, 6.0]), Box(1, [0.0, 1.0]);
    assert Lo(a, 1) == 5.0 && Hi(a, 1) == 6.0;
    assert !HoldsZero(a, b);
    InsideIffContains(b, a);
    assert Hi(b, 1) < Lo(a, 1);
    MeetsIffIntersect(a, b);
  }

  method ContainsV0(a: Box, b: Box) returns (r: bool)
    requires Valid(a) && Valid(b)
    ensures r <==> Contains(a, b)
  {
    if a.dim < b.dim {
      var i := a.dim;
      while i < b.dim
        invariant a.dim <= i <= b.dim
        invariant forall j :: a.dim <= j < i ==> Lo(b, j) == 0.0 == Hi(b, j)
      {
        if b.x[i] != 0.0 || b.x[i + b.dim] != 0.0 {
          assert Lo(b, i) < 0.0 || Hi(b, i) > 0.0;
          return false;
        }
        i := i + 1;
      }
    }
    var i := 0;
    while i < a.dim && i < b.dim
      invariant 0 <= i <= a.dim && i <= b.dim
      invariant forall j :: 0 <= j < i ==> Lo(a, j) <= Lo(b, j) && Hi(b, j) <= Hi(a, j)
    {
      if Min(a.x[i], a.x[a.dim + i]) > Min(b.x[i], b.x[b.dim + i]) {
        assert Lo(a, i) > Lo(b, i);
        return false;
      }
      if Max(a.x[i], a.x[a.dim + i]) < Max(b.x[i], b.x[b.dim + i]) {
        assert Hi(a, i) < Hi(b, i);
        return false;
      }
      i := i + 1;
    }
    return true;
  }

  // -------------------------------------------------------- cube_union_v0

  ghost predicate Joined(u: Box, a: Box, b: Box) {
    forall i :: 0 <= i ==> Lo(u, i) == Min(Lo(a, i), Lo(b, i)) && Hi(u, i) == Max(Hi(a, i), Hi(b, i))
  }

  /** `cube_union_v0`: the smallest box that holds both, with as many dimensions
      as the larger one has. */
  method UnionV0(a': Box, b': Box) returns (u: Box)
    requires Valid(a') && Valid(b')
    ensures Valid(u) && u.dim == (if a'.dim >= b'.dim then a'.dim else b'.dim) && Joined(u, a', b')
    ensures Inside(a', u) && Inside(b', u)
    ensures forall c :: Inside(a', c) && Inside(b', c) ==> Inside(u, c)
  {
    var a, b := a', b';
    if a.dim < b.dim {
      a, b := b, a;
    }
    hide Lo, Hi, Joined, Inside;
    var r := Padded(b, a.dim);
    Widen(r, a, b);
    u := Box(a.dim, r[..]);
    JoinedFrom(u, a, b);
    JoinedSwap(u, a, b);
    JoinedIsLeast(u, a', b');
  }

  method Widen(r: array<real>, a: Box, ghost b: Box)
    requires Valid(a) && r.Length == 2 * a.dim
    requires forall j :: 0 <= j < a.dim ==> r[j] == Lo(b, j) && r[a.dim + j] == Hi(b, j)
    modifies r
    ensures forall j :: 0 <= j < a.dim ==>
      r[j] == Min(Lo(a, j), Lo(b, j)) && r[a.dim + j] == Max(Hi(a, j), Hi(b, j))
  {
    hide Min, Max, Lo, Hi;
    var i := 0;
    while i < a.dim
      invariant 0 <= i <= a.dim
      invariant forall j :: 0 <= j < i ==>
        r[j] == Min(Lo(a, j), Lo(b, j)) && r[a.dim + j] == Max(Hi(a, j), Hi(b, j))
      invariant forall j :: i <= j < a.dim ==> r[j] == Lo(b, j) && r[a.dim + j] == Hi(b, j)
    {
      Corners(a, i);
      r[i] := Min(Min(a.x[i], a.x[i + a.dim]), r[i]);
      r[i + a.dim] := Max(Max(a.x[i], a.x[i + a.dim]), r[i + a.dim]);
      i := i + 1;
    }
  }

  lemma {:induction false} Corners(b: Box, i: int)
    requires Valid(b) && 0 <= i < b.dim
    ensures Lo(b, i) == Min(b.x[i], b.x[i + b.dim]) && Hi(b, i) == Max(b.x[i], b.x[i + b.dim])
  {
  }

  lemma {:induction false} JoinedSwap(u: Box, a: Box, b: Box)
    ensures Joined(u, a, b) <==> Joined(u, b, a)
  {
    hide Lo, Hi;
  }

  /** The smaller box spread over dim dimensions. */
  method Padded(b: Box, dim: nat) returns (r: array<real>)
    requires Valid(b) && b.dim <= dim
    ensures fresh(r) && r.Length == 2 * dim
    ensures forall j :: 0 <= j < dim ==> r[j] == Lo(b, j) && r[dim + j] == Hi(b, j)
  {
    r := new real[2 * dim];
    var i := 0;
    while i < b.dim
      invariant 0 <= i <= b.dim
      invariant forall j :: 0 <= j < i ==> r[j] == Lo(b, j) && r[dim + j] == Hi(b, j)
    {
      r[i] := Min(b.x[i], b.x[i + b.dim]);
      r[i + dim] := Max(b.x[i], b.x[i + b.dim]);
      i := i + 1;
    }
    while i < dim
      invariant b.dim <= i <= dim
      invariant forall j :: 0 <= j < i ==> r[j] == Lo(b, j) && r[dim + j] == Hi(b, j)
    {
      r[i] := 0.0;
      r[i + dim] := 0.0;
      i := i + 1;
    }
  }

  lemma {:induction false} JoinedFrom(u: Box, a: Box, b: Box)
    requires Valid(u) && Valid(a) && Valid(b) && u.dim == a.dim >= b.dim
    requires forall j :: 0 <= j < a.dim ==>
      u.x[j] == Min(Lo(a, j), Lo(b, j)) && u.x[a.dim + j] == Max(Hi(a, j), Hi(b, j))
    ensures Joined(u, a, b)
  {
  }

  lemma {:induction false} JoinedIsLeast(u: Box, a: Box, b: Box)
    requires Joined(u, a, b)
    ensures Inside(a, u) && Inside(b, u)
    ensures forall c :: Inside(a, c) && Inside(b, c) ==> Inside(u, c)
  {
    hide Lo, Hi, Inside;
    InsideIffWider(a, u);
    InsideIffWider(b, u);
    forall c | Inside(a, c) && Inside(b, c) ensures Inside(u, c) {
      InsideIffWider(a, c);
      InsideIffWider(b, c);
      InsideIffWider(u, c);
    }
  }

  // ---------------------------------------------------------- cube_cmp_v0

  function Sign(x: real, y: real): int {
    if x > y then 1 else if x < y then -1 else 0
  }

  /** The first difference of two coordinate lists from i up to n. */
  function Diff(u: Point, v: Point, i: int, n: int): int
    decreases n - i
  {
    if i >= n then 0
    else if Sign(u(i), v(i)) != 0 then Sign(u(i), v(i))
    else Diff(u, v, i + 1, n)
  }

  function LoOf(b: Box): Point { i => Lo(b, i) }

  function HiOf(b: Box): Point { i => Hi(b, i) }

  function Shared(a: Box, b: Box): nat {
    if a.dim < b.dim then a.dim else b.dim
  }

  function All(a: Box, b: Box): nat {
    if a.dim < b.dim then b.dim else a.dim
  }

  /** Low corners and then high corners in the shared dimensions, the same in the
      others against zero, and at last the number of dimensions. */
  function BoxCmp(a: Box, b: Box): int {
    var m, n := Shared(a, b), All(a, b);
    if Diff(LoOf(a), LoOf(b), 0, m) != 0 then Diff(LoOf(a), LoOf(b), 0, m)
    else if Diff(HiOf(a), HiOf(b), 0, m) != 0 then Diff(HiOf(a), HiOf(b), 0, m)
    else if Diff(LoOf(a), LoOf(b), m, n) != 0 then Diff(LoOf(a), LoOf(b), m, n)
    else if Diff(HiOf(a), HiOf(b), m, n) != 0 then Diff(HiOf(a), HiOf(b), m, n)
    else IntCmp(a.dim, b.dim)
  }

  method LowDiff(a: Box, b: Box, from: int, to: int) returns (r: int)
    ensures r == Diff(LoOf(a), LoOf(b), from, to)
  {
    hide Lo;
    var i := from;
    while i < to
      invariant from <= i && Diff(LoOf(a), LoOf(b), i, to) == Diff(LoOf(a), LoOf(b), from, to)
    {
      if Lo(a, i) > Lo(b, i) {
        return 1;
      }
      if Lo(a, i) < Lo(b, i) {
        return -1;
      }
      i := i + 1;
    }
    return 0;
  }

  method HighDiff(a: Box, b: Box, from: int, to: int) returns (r: int)
    ensures r == Diff(HiOf(a), HiOf(b), from, to)
  {
    hide Lo, Hi;
    var i := from;
    while i < to
      invariant from <= i && Diff(HiOf(a), HiOf(b), i, to) == Diff(HiOf(a), HiOf(b), from, to)
    {
      if Hi(a, i) > Hi(b, i) {
        return 1;
      }
      if Hi(a, i) < Hi(b, i) {
        return -1;
      }
      i := i + 1;
    }
    return 0;
  }

  /** u is the smaller at the first difference from i up to n. */
  ghost predicate FirstLess(u: Point, v: Point, i: int, n: int) {
    exists j :: i <= j < n && u(j) < v(j) && Alike(u, v, i, j)
  }

  ghost predicate Alike(u: Point, v: Point, i: int, n: int) {
    forall k :: i <= k < n ==> u(k) == v(k)
  }

  lemma {:induction false} DiffBelow(u: Point, v: Point, i: int, n: int)
    ensures Diff(u, v, i, n) < 0 <==> FirstLess(u, v, i, n)
    ensures Diff(u, v, i, n) == 0 <==> Alike(u, v, i, n)
    decreases n - i
  {
    if i < n {
      DiffBelow(u, v, i + 1, n);
      if u(i) == v(i) {
        if j :| i + 1 <= j < n && u(j) < v(j) && Alike(u, v, i + 1, j) {
          assert Alike(u, v, i, j);
        }
        if j :| i <= j < n && u(j) < v(j) && Alike(u, v, i, j) {
          assert Alike(u, v, i + 1, j);
        }
      } else if u(i) < v(i) {
        assert Alike(u, v, i, i);
      }
    }
  }

  /** Which box comes first: the one with the smaller low corner, then high corner,
      at the first difference in the dimensions both have; then the same in the other
      dimensions, where the box that lacks them has zero; then the one of fewer
      dimensions. */
  ghost predicate BoxBefore(a: Box, b: Box) {
    var m := if a.dim < b.dim then a.dim else b.dim;
    var n := if a.dim < b.dim then b.dim else a.dim;
    var la, ha, lb, hb := i => Lo(a, i), i => Hi(a, i), i => Lo(b, i), i => Hi(b, i);
    || FirstLess(la, lb, 0, m)
    || (Alike(la, lb, 0, m) && FirstLess(ha, hb, 0, m))
    || (Alike(la, lb, 0, m) && Alike(ha, hb, 0, m) && FirstLess(la, lb, m, n))
    || (Alike(la, lb, 0, n) && Alike(ha, hb, 0, m) && FirstLess(ha, hb, m, n))
    || (Alike(la, lb, 0, n) && Alike(ha, hb, 0, n) && a.dim < b.dim)
  }

  lemma {:induction false} BoxBelow(a: Box, b: Box)
    ensures BoxCmp(a, b) < 0 <==> BoxBefore(a, b)
    ensures BoxCmp(a, b) > 0 <==> BoxBefore(b, a)
  {
    hide BoxBefore, BoxCmp;
    BoxBelowOne(a, b);
    BoxBelowOne(b, a);
    Antisymmetric(a, b);
  }

  lemma {:induction false} BoxBelowOne(a: Box, b: Box)
    ensures BoxCmp(a, b) < 0 <==> BoxBefore(a, b)
  {
    hide Lo, Hi, Diff, FirstLess, Alike;
    var m, n := Shared(a, b), All(a, b);
    var la, ha, lb, hb := i => Lo(a, i), i => Hi(a, i), i => Lo(b, i), i => Hi(b, i);
    Coordinates(a, b, 0, m, la, ha, lb, hb);
    Coordinates(a, b, m, n, la, ha, lb, hb);
    AlikeTo(la, lb, m, n);
    AlikeTo(ha, hb, m, n);
  }

  lemma {:induction false} AlikeTo(u: Point, v: Point, m: int, n: int)
    requires 0 <= m <= n
    ensures Alike(u, v, 0, n) <==> Alike(u, v, 0, m) && Alike(u, v, m, n)
  {
  }

  lemma {:induction false} Coordinates(a: Box, b: Box, i: int, n: int, la: Point, ha: Point, lb: Point, hb: Point)
    requires forall j :: la(j) == Lo(a, j) && ha(j) == Hi(a, j) && lb(j) == Lo(b, j) && hb(j) == Hi(b, j)
    ensures Diff(LoOf(a), LoOf(b), i, n) < 0 <==> FirstLess(la, lb, i, n)
    ensures Diff(LoOf(a), LoOf(b), i, n) == 0 <==> Alike(la, lb, i, n)
    ensures Diff(HiOf(a), HiOf(b), i, n) < 0 <==> FirstLess(ha, hb, i, n)
    ensures Diff(HiOf(a), HiOf(b), i, n) == 0 <==> Alike(ha, hb, i, n)
  {
    hide Lo, Hi, Diff;
    DiffBelow(LoOf(a), LoOf(b), i, n);
    DiffBelow(HiOf(a), HiOf(b), i, n);
    SamePoints(LoOf(a), LoOf(b), la, lb, i, n);
    SamePoints(HiOf(a), HiOf(b), ha, hb, i, n);
  }

  lemma {:induction false} SamePoints(u: Point, v: Point, u': Point, v': Point, i: int, n: int)
    requires forall j :: u(j) == u'(j) && v(j) == v'(j)
    ensures FirstLess(u, v, i, n) <==> FirstLess(u', v', i, n)
    ensures Alike(u, v, i, n) <==> Alike(u', v', i, n)
  {
    forall j ensures Alike(u, v, i, j) <==> Alike(u', v', i, j) {
    }
  }

  /** `cube_cmp_v0` */
  method CmpV0(a: Box, b: Box) returns (r: int)
    requires Valid(a) && Valid(b)
    ensures r == BoxCmp(a, b)
    ensures (r < 0 <==> BoxBefore(a, b)) && (r > 0 <==> BoxBefore(b, a))
    ensures r == 0 <==> SameBox(a, b)
  {
    hide Diff, LoOf, HiOf, BoxBefore;
    ZeroIffSame(a, b);
    BoxBelow(a, b);
    var dim := Shared(a, b);
    r := LowDiff(a, b, 0, dim);
    if r != 0 {
      return;
    }
    r := HighDiff(a, b, 0, dim);
    if r != 0 {
      return;
    }
    if a.dim != b.dim {
      r := LowDiff(a, b, dim, All(a, b));
      if r != 0 {
        return;
      }
      r := HighDiff(a, b, dim, All(a, b));
      if r != 0 {
        return;
      }
      return if a.dim > b.dim then 1 else -1;
    }
    DiffEmpty(LoOf(a), LoOf(b), dim);
    DiffEmpty(HiOf(a), HiOf(b), dim);
    return 0;
  }

  lemma {:induction false} DiffEmpty(u: Point, v: Point, n: int)
    ensures Diff(u, v, n, n) == 0
  {
  }

  /** The same box, whichever corners were given. */
  ghost predicate SameBox(a: Box, b: Box) {
    a.dim == b.dim && forall i :: 0 <= i < a.dim ==> Lo(a, i) == Lo(b, i) && Hi(a, i) == Hi(b, i)
  }

  lemma {:induction false} ZeroIffSame(a: Box, b: Box)
    ensures BoxCmp(a, b) == 0 <==> SameBox(a, b)
  {
    hide Lo, Hi;
    var n := Shared(a, b);
    DiffZero(LoOf(a), LoOf(b), 0, n);
    DiffZero(HiOf(a), HiOf(b), 0, n);
    DiffEmpty(LoOf(a), LoOf(b), n);
    DiffEmpty(HiOf(a), HiOf(b), n);
    assert forall i :: LoOf(a)(i) == Lo(a, i) && HiOf(a)(i) == Hi(a, i);
    assert forall i :: LoOf(b)(i) == Lo(b, i) && HiOf(b)(i) == Hi(b, i);
  }

  lemma {:induction false} DiffZero(u: Point, v: Point, i: int, n: int)
    ensures Diff(u, v, i, n) == 0 <==> forall k :: i <= k < n ==> u(k) == v(k)
    decreases n - i
  {
    if i < n {
      DiffZero(u, v, i + 1, n);
    }
  }

  lemma {:induction false} DiffAt(u: Point, v: Point, i: int, n: int, j: int)
    requires i <= j < n && u(j) != v(j) && forall k :: i <= k < j ==> u(k) == v(k)
    ensures Diff(u, v, i, n) == Sign(u(j), v(j))
    decreases n - i
  {
    if i < j {
      DiffAt(u, v, i + 1, n, j);
    }
  }

  lemma {:induction false} DiffTrans(u: Point, v: Point, w: Point, i: int, n: int)
    requires Diff(u, v, i, n) <= 0 && Diff(v, w, i, n) <= 0
    ensures Diff(u, w, i, n) <= 0
    ensures Diff(u, w, i, n) == 0 ==> Diff(u, v, i, n) == 0 && Diff(v, w, i, n) == 0
    decreases n - i
  {
    if i < n && u(i) == v(i) == w(i) {
      DiffTrans(u, v, w, i + 1, n);
    }
  }

  /** Boxes of one dimension, and boxes of none. */
  ghost predicate OneDim(b: Box, d: int) {
    b.dim == d || b.dim == 0
  }

  lemma {:induction false} OneDimCmp(a: Box, b: Box, d: nat)
    requires OneDim(a, d) && OneDim(b, d)
    ensures BoxCmp(a, b)
         == if Diff(LoOf(a), LoOf(b), 0, d) != 0 then Diff(LoOf(a), LoOf(b), 0, d)
            else if Diff(HiOf(a), HiOf(b), 0, d) != 0 then Diff(HiOf(a), HiOf(b), 0, d)
            else IntCmp(a.dim, b.dim)
  {
    var n := All(a, b);
    DiffEmpty(LoOf(a), LoOf(b), n);
    DiffEmpty(HiOf(a), HiOf(b), n);
    DiffEmpty(LoOf(a), LoOf(b), 0);
    DiffEmpty(HiOf(a), HiOf(b), 0);
    if a.dim == b.dim == 0 {
      DiffZero(LoOf(a), LoOf(b), 0, d);
      DiffZero(HiOf(a), HiOf(b), 0, d);
    }
  }

  lemma {:induction false} OneDimTransitive(a: Box, b: Box, c: Box, d: nat)
    requires OneDim(a, d) && OneDim(b, d) && OneDim(c, d) && BoxCmp(a, b) < 0 && BoxCmp(b, c) < 0
    ensures BoxCmp(a, c) < 0
  {
    hide Diff, BoxCmp, LoOf, HiOf;
    OneDimCmp(a, b, d);
    OneDimCmp(b, c, d);
    OneDimCmp(a, c, d);
    DiffTrans(LoOf(a), LoOf(b), LoOf(c), 0, d);
    if Diff(LoOf(a), LoOf(c), 0, d) == 0 {
      DiffTrans(HiOf(a), HiOf(b), HiOf(c), 0, d);
    }
  }

  /** With two positive dimensions the order has a cycle: the two larger boxes are
      told apart by a low corner the smaller box does not have. */
  lemma {:induction false} Cycle(d: nat, e: nat) returns (a: Box, b: Box, c: Box)
    requires 0 < d < e
    ensures Valid(a) && Valid(b) && Valid(c) && a.dim == d && b.dim == c.dim == e
    ensures BoxCmp(b, a) < 0 && BoxCmp(a, c) < 0 && BoxCmp(c, b) < 0
  {
    a := Box(d, seq(2 * d, k => if k == d then 1.0 else 0.0));
    b := Box(e, seq(2 * e, k => if k == d || k == e + d then 1.0 else 0.0));
    c := Box(e, seq(2 * e, k => if k == e then 2.0 else 0.0));
    DiffZero(LoOf(b), LoOf(a), 0, d);
    DiffAt(HiOf(b), HiOf(a), 0, d, 0);
    DiffZero(LoOf(a), LoOf(c), 0, d);
    DiffAt(HiOf(a), HiOf(c), 0, d, 0);
    DiffAt(LoOf(c), LoOf(b), 0, e, d);
  }

  ghost predicate OneOf(b: Box, dims: set<nat>) {
    Valid(b) && b.dim in dims
  }

  ghost predicate TransitiveOn(dims: set<nat>) {
    forall a, b, c :: OneOf(a, dims) && OneOf(b, dims) && OneOf(c, dims) ==>
      (BoxCmp(a, b) < 0 && BoxCmp(b, c) < 0 ==> BoxCmp(a, c) < 0)
  }

  /** The comparison orders boxes of the given dimensions exactly when at most one
      of these is positive. */
  lemma {:induction false} TransitiveIff(dims: set<nat>)
    ensures TransitiveOn(dims) <==> forall d, e :: d in dims && e in dims && 0 < d && 0 < e ==> d == e
  {
    hide BoxCmp;
    if forall d, e :: d in dims && e in dims && 0 < d && 0 < e ==> d == e {
      forall a, b, c | OneOf(a, dims) && OneOf(b, dims) && OneOf(c, dims) && BoxCmp(a, b) < 0 && BoxCmp(b, c) < 0
        ensures BoxCmp(a, c) < 0
      {
        var d := if a.dim > 0 then a.dim else if b.dim > 0 then b.dim else c.dim;
        OneDimTransitive(a, b, c, d);
      }
    } else {
      var d, e :| d in dims && e in dims && 0 < d && 0 < e && d != e;
      var a, b, c := Cycle(if d < e then d else e, if d < e then e else d);
      Antisymmetric(c, b);
      assert OneOf(a, dims) && OneOf(b, dims) && OneOf(c, dims);
    }
  }

  lemma {:induction false} Antisymmetric(a: Box, b: Box)
    ensures BoxCmp(a, b) == -BoxCmp(b, a)
  {
    hide Lo, Hi;
    var m, n := Shared(a, b), All(a, b);
    DiffFlip(LoOf(a), LoOf(b), 0, m);
    DiffFlip(HiOf(a), HiOf(b), 0, m);
    DiffFlip(LoOf(a), LoOf(b), m, n);
    DiffFlip(HiOf(a), HiOf(b), m, n);
  }

  lemma {:induction false} DiffFlip(u: Point, v: Point, i: int, n: int)
    ensures Diff(u, v, i, n) == -Diff(v, u, i, n)
    decreases n - i
  {
    if i < n {
      DiffFlip(u, v, i + 1, n);
    }
  }
}
