/** The gist_ltree_ops operator class, for the order operators, ancestors and
    descendants: an inner key holds the smallest and the largest path below it. */
module LtreeGist {
  import opened Common
  import opened Ltree
  import opened Gist
  import GistInsert

  // ----------------------------------------------------------------- keys

  /** A leaf holds one path, an inner key two bounds. */
  datatype Key = OneNode(node: Path) | Bounds(left: Path, right: Path)

  function L(k: Key): Path {
    if k.OneNode? then k.node else k.left
  }

  function R(k: Key): Path {
    if k.OneNode? then k.node else k.right
  }

  ghost predicate Valid(k: Key) {
    Shallow(L(k)) && Shallow(R(k))
  }

  ghost predicate IsKey(k: Key, row: Path) {
    k == OneNode(row) && Shallow(row)
  }

  ghost predicate Above(k: Key, c: Key) {
    Valid(k) && Le(L(k), L(c)) && Le(R(c), R(k))
  }

  ghost predicate Covers(k: Key, row: Path) {
    Valid(k) && Shallow(row) && Le(L(k), row) && Le(row, R(k))
  }

  lemma {:induction false} KeysLawful()
    ensures Lawful(IsKey, Above, Covers)
  {
    hide PathCmp, Shallow;
    PathCmpTotal();
    forall k, c, v | Above(k, c) && Covers(c, v) ensures Covers(k, v) {
      LeTrans(L(k), L(c), v);
      LeTrans(v, R(c), R(k));
    }
  }

  lemma {:induction false} AboveTransitive()
    ensures forall a, b, k :: Above(a, b) && Above(b, k) ==> Above(a, k)
  {
    hide PathCmp, Shallow;
    forall a, b, k | Above(a, b) && Above(b, k) ensures Above(a, k) {
      LeTrans(L(a), L(b), L(k));
      LeTrans(R(k), R(b), R(a));
    }
  }

  /** Support functions that keep the contracts of this module make a sound class. */
  lemma {:induction false} SupportedIsSound(c: GistInsert.OpClass<Key, Path>)
    requires c.valid == Valid && c.above == Above && forall k, row :: c.isKey(k, row) ==> IsKey(k, row)
    requires GistInsert.Supported(c)
    ensures GistInsert.Sound(c)
  {
    hide Above, GistInsert.Supported, Shallow;
    AboveTransitive();
  }

  /** Two keys joined: the lower left and the higher right bound. */
  ghost function Join(a: Key, b: Key): Key {
    Bounds(if Le(L(a), L(b)) then L(a) else L(b), if Le(R(a), R(b)) then R(b) else R(a))
  }

  lemma {:induction false} JoinLaws()
    ensures GistInsert.Joining(Valid, Above, (a, b) => Some(Join(a, b)))
  {
    hide PathCmp, Shallow;
    PathCmpTotal();
    AboveTransitive();
  }

  /** There is a sound class, for any page size, and every run of it returns. */
  lemma {:induction false} ClassExists(space: GistInsert.Space<Key>, ops: seq<GistInsert.Insertion<Key, Path>>)
    requires GistInsert.Roomy(space)
    requires forall i :: 0 <= i < |ops| ==> IsKey(ops[i].key, ops[i].row)
    ensures var c := GistInsert.Plain(Valid, IsKey, Above, (a, b) => Some(Join(a, b)), space);
      GistInsert.Supported(c) && GistInsert.Sound(c) && GistInsert.After(c, ops).Some?
  {
    hide Above, Shallow, Join, GistInsert.Supported, GistInsert.Total;
    JoinLaws();
    var join := (a, b) => Some(Join(a, b));
    var c := GistInsert.Plain(Valid, IsKey, Above, join, space);
    GistInsert.PlainSupported(Valid, IsKey, Above, join, space);
    GistInsert.PlainTotal(Valid, IsKey, Above, join, space, |ops|);
    SupportedIsSound(c);
    GistInsert.RunNarrow(c, ops, |ops|);
    GistInsert.TotalRuns(c, ops, |ops|);
  }

  /** `ltree_compare` on paths shallow enough for it. */
  method Cmp(a: Path, b: Path) returns (res: int)
    requires Shallow(a) && Shallow(b)
    ensures SameSign(res, PathCmp(a, b))
  {
    ShallowFaithful(a, b);
    res := Compare(a, b);
  }

  /** ISEQ */
  method IsEq(a: Path, b: Path) returns (r: bool)
    requires Shallow(a) && Shallow(b)
    ensures r <==> a == b
  {
    PathCmpTotal();
    if |a| != |b| {
      return false;
    }
    var c := Cmp(a, b);
    return c == 0;
  }

  /** When both bounds are equal, one of them is stored. */
  method MakeKey(left: Path, right: Path) returns (k: Key)
    requires Shallow(left) && Shallow(right)
    ensures k == Bounds(left, right)
  {
    var isleqr := IsEq(left, right);
    return Bounds(left, if isleqr then left else right);
  }

  ghost predicate LeftOfSome(p: Path, entries: seq<Key>) {
    exists i :: 0 <= i < |entries| && L(entries[i]) == p
  }

  ghost predicate RightOfSome(p: Path, entries: seq<Key>) {
    exists i :: 0 <= i < |entries| && R(entries[i]) == p
  }

  ghost predicate Bounded(left: Path, right: Path, entries: seq<Key>, n: int) {
    forall i :: 0 <= i < n && i < |entries| ==> Le(left, L(entries[i])) && Le(R(entries[i]), right)
  }

  /** `ltree_union`: the tightest bounds of all entries. */
  method Union(entries: seq<Key>) returns (k: Key)
    requires entries != [] && forall i :: 0 <= i < |entries| ==> Valid(entries[i])
    ensures GistInsert.Unites(Valid, Above, entries, Some(k))
    ensures LeftOfSome(L(k), entries) && RightOfSome(R(k), entries)
  {
    hide PathCmp, Shallow, LeftOfSome, RightOfSome, Bounded;
    var left, right := None, None;
    var j := 0;
    while j < |entries|
      invariant 0 <= j <= |entries| && (left.Some? <==> j > 0) && (right.Some? <==> j > 0)
      invariant j > 0 ==> Shallow(left.value) && Shallow(right.value)
      invariant j > 0 ==> Bounded(left.value, right.value, entries, j)
      invariant j > 0 ==> LeftOfSome(left.value, entries) && RightOfSome(right.value, entries)
    {
      ghost var was := (left, right);
      var l := Lower(left, L(entries[j]));
      var r := Higher(right, R(entries[j]));
      OfSome(entries, j);
      if j > 0 {
        Widened(was.0.value, was.1.value, l, r, entries, j);
      } else {
        FirstBounds(l, r, entries);
      }
      left, right := Some(l), Some(r);
      j := j + 1;
    }
    k := MakeKey(left.value, right.value);
    BoundsAll(left.value, right.value, entries);
  }

  /** The running minimum; the first path replaces nothing. */
  method Lower(best: Option<Path>, p: Path) returns (r: Path)
    requires Shallow(p) && (best.Some? ==> Shallow(best.value))
    ensures Le(r, p) && (r == p || best == Some(r)) && (best.Some? ==> Le(r, best.value))
  {
    hide PathCmp;
    PathCmpTotal();
    if best.Some? {
      var c := Cmp(best.value, p);
      return if c > 0 then p else best.value;
    }
    return p;
  }

  /** The running maximum. */
  method Higher(best: Option<Path>, p: Path) returns (r: Path)
    requires Shallow(p) && (best.Some? ==> Shallow(best.value))
    ensures Le(p, r) && (r == p || best == Some(r)) && (best.Some? ==> Le(best.value, r))
  {
    hide PathCmp;
    PathCmpTotal();
    if best.Some? {
      var c := Cmp(best.value, p);
      return if c < 0 then p else best.value;
    }
    return p;
  }

  lemma {:induction false} OfSome(entries: seq<Key>, j: nat)
    requires j < |entries|
    ensures LeftOfSome(L(entries[j]), entries) && RightOfSome(R(entries[j]), entries)
  {
  }

  lemma {:induction false} FirstBounds(l: Path, r: Path, entries: seq<Key>)
    requires entries != [] && Le(l, L(entries[0])) && Le(R(entries[0]), r)
    ensures Bounded(l, r, entries, 1)
  {
  }

  lemma {:induction false} BoundsAll(l: Path, r: Path, entries: seq<Key>)
    requires Bounded(l, r, entries, |entries|) && Shallow(l) && Shallow(r)
    ensures forall i :: 0 <= i < |entries| ==> Above(Bounds(l, r), entries[i])
  {
  }

  lemma {:induction false} Widened(l: Path, r: Path, l': Path, r': Path, entries: seq<Key>, j: nat)
    requires j < |entries| && Bounded(l, r, entries, j) && Le(l', l) && Le(r, r')
    requires Le(l', L(entries[j])) && Le(R(entries[j]), r')
    ensures Bounded(l', r', entries, j + 1)
  {
    forall i | 0 <= i < j ensures Le(l', L(entries[i])) && Le(R(entries[i]), r') {
      LeTrans(l', l, L(entries[i]));
      LeTrans(R(entries[i]), r, r');
    }
  }

  /** `ltree_same`, the bounds only. */
  method SameKeys(a: Key, b: Key) returns (r: bool)
    requires Valid(a) && Valid(b)
    ensures r <==> a.OneNode? == b.OneNode? && L(a) == L(b) && R(a) == R(b)
  {
    hide PathCmp, Shallow;
    if a.OneNode? != b.OneNode? {
      return false;
    }
    r := IsEq(L(a), L(b));
    if r && !a.OneNode? {
      r := IsEq(R(a), R(b));
    }
  }

  /** `gistgetadjusted` for this class. */
  method Adjust(was: Key, add: Key) returns (r: GistInsert.Adjusted<Key>)
    requires Valid(was) && Valid(add)
    ensures GistInsert.Adjusts(Valid, Above, was, add, r) && !r.NotRaised?
    ensures r.Raised? ==> L(r.key) in [L(was), L(add)] && R(r.key) in [R(was), R(add)]
  {
    hide PathCmp, Shallow;
    var entries := [was, add];
    var u := Union(entries);
    assert Above(u, entries[0]) && Above(u, entries[1]);
    var same := SameKeys(was, u);
    if same {
      return GistInsert.Enough;
    }
    return GistInsert.Raised(u);
  }

  // ------------------------------------------------------------ picksplit

  function LeftAt(entries: seq<Key>, i: int): Path {
    if 0 <= i < |entries| then L(entries[i]) else []
  }

  ghost predicate UpTo(entries: seq<Key>, side: seq<int>, hi: Path) {
    forall p :: 0 <= p < |side| ==> 0 <= side[p] < |entries| && Le(R(entries[side[p]]), hi)
  }

  /** `ltree_picksplit`: entries in the order of their left bounds, one half to
      each side. */
  method PickSplit(entries: seq<Key>) returns (left: seq<int>, right: seq<int>, l: Key, r: Key)
    requires |entries| >= 3 && forall i :: 0 <= i < |entries| ==> Valid(entries[i])
    ensures GistInsert.Halves(Valid, Above, entries, Some(GistInsert.Split(left, right, l, r)))
    ensures SplitTight(entries, Above, left, right, l, r)
  {
    hide PathCmp, Shallow, InOrder, Offsets, UpTo, SplitOk, SplitTight, Preorder, Le, HighestOf;
    var n := |entries| - 1;
    LeftsOrdered(entries);
    var order := SortOffsets(n, (i, j) => Le(LeftAt(entries, i), LeftAt(entries, j)));
    assert |order| == |multiset(order)| == |multiset(Offsets(n))| == n;
    var half := n / 2;
    var luR := HighestRight(entries, order, 0, half);
    var ruR := HighestRight(entries, order, half, n);
    left, right := order[..half], order[half..];
    assert order[0..half] == left && order[half..n] == right;
    OffsetBounds(order, n, 0);
    OffsetBounds(order, n, half);
    l := MakeKey(L(entries[order[0]]), luR);
    r := MakeKey(L(entries[order[half]]), ruR);
    SideAbove(entries, order, 0, half, l);
    SideAbove(entries, order, half, n, r);
    assert left + right == order;
    SideLeast(entries, left, l);
    SideLeast(entries, right, r);
    SplitMade(entries, left, right, l, r);
  }

  lemma {:induction false} SplitMade(entries: seq<Key>, left: seq<int>, right: seq<int>, l: Key, r: Key)
    requires multiset(left + right) == multiset(Offsets(|entries| - 1)) && left != [] && right != []
    requires AboveAll(entries, Above, left, l) && AboveAll(entries, Above, right, r)
    requires IsLeast(entries, Above, left, l) && IsLeast(entries, Above, right, r)
    ensures SplitOk(entries, Above, left, right, l, r) && SplitTight(entries, Above, left, right, l, r)
  {
  }

  /** Both bounds are bounds of entries on the side. */
  lemma {:induction false} SideLeast(entries: seq<Key>, side: seq<int>, k: Key)
    requires AboveAll(entries, Above, side, k) && side != [] && L(k) == L(entries[side[0]])
    requires HighestOf(entries, side, R(k))
    ensures IsLeast(entries, Above, side, k)
  {
    hide PathCmp, Shallow;
  }

  ghost predicate HighestOf(entries: seq<Key>, side: seq<int>, hi: Path) {
    exists p :: 0 <= p < |side| && 0 <= side[p] < |entries| && R(entries[side[p]]) == hi
  }

  lemma {:induction false} LeftsOrdered(entries: seq<Key>)
    ensures Preorder((i: int, j: int) => Le(LeftAt(entries, i), LeftAt(entries, j)))
  {
    hide PathCmp;
    PathCmpTotal();
    forall i, j, k | Le(LeftAt(entries, i), LeftAt(entries, j)) && Le(LeftAt(entries, j), LeftAt(entries, k))
      ensures Le(LeftAt(entries, i), LeftAt(entries, k))
    {
      LeTrans(LeftAt(entries, i), LeftAt(entries, j), LeftAt(entries, k));
    }
  }

  /** The largest right bound of the entries that go to one side. */
  method HighestRight(entries: seq<Key>, order: seq<int>, from: nat, to: nat) returns (hi: Path)
    requires from < to <= |order| && |entries| >= 1 && multiset(order) == multiset(Offsets(|entries| - 1))
    requires forall i :: 0 <= i < |entries| ==> Valid(entries[i])
    ensures Shallow(hi) && UpTo(entries, order[from..to], hi) && HighestOf(entries, order[from..to], hi)
  {
    hide PathCmp, Shallow, Offsets, UpTo, HighestOf;
    var best := None;
    var j := from;
    while j < to
      invariant from <= j <= to && (best.Some? <==> j > from)
      invariant j > from ==> Shallow(best.value) && UpTo(entries, order[from..j], best.value)
      invariant j > from ==> HighestOf(entries, order[from..j], best.value)
    {
      OffsetBounds(order, |entries| - 1, j);
      var r := Higher(best, R(entries[order[j]]));
      UpToNext(entries, order, from, j, best, r);
      best := Some(r);
      j := j + 1;
    }
    return best.value;
  }

  lemma {:induction false} UpToNext(entries: seq<Key>, order: seq<int>, from: nat, j: nat, best: Option<Path>, r: Path)
    requires from <= j < |order| && 0 <= order[j] < |entries| && Le(R(entries[order[j]]), r)
    requires best.Some? ==> UpTo(entries, order[from..j], best.value) && Le(best.value, r)
    requires best.None? ==> j == from
    requires r == R(entries[order[j]]) || (best == Some(r) && HighestOf(entries, order[from..j], r))
    ensures UpTo(entries, order[from..j + 1], r) && HighestOf(entries, order[from..j + 1], r)
  {
    hide PathCmp;
    var side := order[from..j + 1];
    assert side[j - from] == order[j];
    assert forall p :: 0 <= p < j - from ==> order[from..j][p] == side[p];
    forall p | 0 <= p < |side| ensures 0 <= side[p] < |entries| && Le(R(entries[side[p]]), r) {
      if p < j - from {
        assert side[p] == order[from..j][p];
        LeTrans(R(entries[side[p]]), best.value, r);
      }
    }
  }

  lemma {:induction false} SideAbove(entries: seq<Key>, order: seq<int>, from: nat, to: nat, k: Key)
    requires |entries| >= 1 && from < to <= |order| && multiset(order) == multiset(Offsets(|entries| - 1))
    requires InOrder(order, (i: int, j: int) => Le(LeftAt(entries, i), LeftAt(entries, j)))
    requires 0 <= order[from] < |entries| && L(k) == L(entries[order[from]]) && Valid(k)
    requires UpTo(entries, order[from..to], R(k))
    ensures AboveAll(entries, Above, order[from..to], k)
  {
    hide PathCmp, Shallow, Offsets;
    PathCmpTotal();
    var side := order[from..to];
    forall p | 0 <= p < |side| ensures 0 <= side[p] < |entries| && Above(k, entries[side[p]]) {
      assert side[p] == order[from + p];
      OffsetBounds(order, |entries| - 1, from + p);
      assert p > 0 ==> Le(LeftAt(entries, order[from]), LeftAt(entries, order[from + p]));
    }
  }

  // -------------------------------------------------------------- queries

  /** The operators: <, <=, =, >=, >, @> and <@ of a stored path and p. */
  datatype Query = Less(p: Path) | LessEq(p: Path) | Equal(p: Path) | GreaterEq(p: Path) | Greater(p: Path)
                 | Ancestors(p: Path) | Descendants(p: Path)

  ghost predicate Matches(q: Query, row: Path) {
    match q
    case Less(p) => PathCmp(row, p) < 0
    case LessEq(p) => PathCmp(row, p) <= 0
    case Equal(p) => row == p
    case GreaterEq(p) => PathCmp(row, p) >= 0
    case Greater(p) => PathCmp(row, p) > 0
    case Ancestors(p) => row <= p
    case Descendants(p) => p <= row
  }

  /** The operators as a sequential scan computes them. */
  ghost predicate Operator(q: Query, row: Path) {
    match q
    case Less(p) => Compared(row, p) < 0
    case LessEq(p) => Compared(row, p) <= 0
    case Equal(p) => Compared(row, p) == 0
    case GreaterEq(p) => Compared(row, p) >= 0
    case Greater(p) => Compared(row, p) > 0
    case Ancestors(p) => row <= p
    case Descendants(p) => p <= row
  }

  ghost predicate LeafTest(q: Query, k: Key) {
    match q
    case Less(p) => Compared(p, L(k)) > 0
    case LessEq(p) => Compared(p, L(k)) >= 0
    case Equal(p) => Compared(p, L(k)) == 0
    case GreaterEq(p) => Compared(p, R(k)) <= 0
    case Greater(p) => Compared(p, R(k)) < 0
    case Ancestors(p) => L(k) <= p
    case Descendants(p) => p <= L(k)
  }

  ghost predicate InnerTest(q: Query, k: Key) {
    match q
    case Less(p) => Compared(p, L(k)) >= 0
    case LessEq(p) => Compared(p, L(k)) >= 0
    case Equal(p) => Compared(p, L(k)) >= 0 && Compared(p, R(k)) <= 0
    case GreaterEq(p) => Compared(p, R(k)) <= 0
    case Greater(p) => Compared(p, R(k)) <= 0
    case Ancestors(p) => PrefixBetween(k, p, 0)
    case Descendants(p) => Compared(p, Trunc(L(k), |p|)) >= 0 && Compared(p, Trunc(R(k), |p|)) <= 0
  }

  ghost predicate Between(k: Key, p: Path) {
    Compared(p, L(k)) >= 0 && Compared(p, R(k)) <= 0
  }

  /** Some ancestor of p, or p itself, with at least from levels lies between the
      bounds. */
  ghost predicate PrefixBetween(k: Key, p: Path, from: int) {
    exists i :: 0 <= i <= |p| && i >= from && Between(k, p[..i])
  }

  /** A path whose level count can be changed in place: only the first numlevel
      labels belong to it. */
  class StoredPath {
    const labels: Path
    var numlevel: int

    constructor (p: Path)
      ensures labels == p && numlevel == |p|
    {
      labels := p;
      numlevel := |p|;
    }

    function Levels(): Path
      requires 0 <= numlevel <= |labels|
      reads this
    {
      labels[..numlevel]
    }
  }

  /** `gist_isparent`: tries the query and all its ancestors by shortening it in
      place, and puts its level count back. */
  method GistIsParent(key: Key, query: StoredPath) returns (r: bool)
    requires IsPath(L(key)) && IsPath(R(key))
    requires 0 <= query.numlevel <= |query.labels| && IsPath(query.Levels())
    modifies query
    ensures query.numlevel == old(query.numlevel)
    ensures r <==> PrefixBetween(key, query.Levels(), 0)
  {
    hide Compared, PathCmp, Faithful;
    var numlevel := query.numlevel;
    ghost var p := query.Levels();
    var i := numlevel;
    while i >= 0
      invariant -1 <= i <= numlevel && 0 <= query.numlevel <= numlevel
      invariant !PrefixBetween(key, p, i + 1)
    {
      query.numlevel := i;
      assert query.Levels() == p[..i];
      var c := Compare(query.Levels(), L(key));
      var d := Compare(query.Levels(), R(key));
      if c >= 0 && d <= 0 {
        query.numlevel := numlevel;
        assert Between(key, p[..i]);
        return true;
      }
      i := i - 1;
    }
    query.numlevel := numlevel;
    return false;
  }

  /** `gist_ischild`: compares the query with the bounds cut to its length. */
  method GistIsChild(key: Key, query: Path) returns (res: bool)
    requires IsPath(L(key)) && IsPath(R(key)) && IsPath(query)
    ensures res <==> InnerTest(Descendants(query), key)
  {
    hide Compared, PathCmp, Faithful;
    var left, right := L(key), R(key);
    res := true;
    if |left| > |query| {
      left := left[..|query|];
    }
    assert left == Trunc(L(key), |query|);
    var c := Compare(query, left);
    if c < 0 {
      res := false;
    }
    if |right| > |query| {
      right := right[..|query|];
    }
    assert right == Trunc(R(key), |query|);
    if res {
      var d := Compare(query, right);
      if d > 0 {
        res := false;
      }
    }
  }

  /** `ltree_consistent`, the first seven operators. */
  method Consistent(key: Key, q: Query, leaf: bool) returns (res: bool, recheck: bool)
    requires IsPath(L(key)) && IsPath(R(key)) && IsPath(q.p) && (leaf ==> key.OneNode?)
    ensures !recheck
    ensures res <==> if leaf then LeafTest(q, key) else InnerTest(q, key)
  {
    hide Compared, PathCmp, Faithful, PrefixBetween;
    recheck := false;
    var l := Compare(q.p, L(key));
    var r := Compare(q.p, R(key));
    match q
    case Less(_) => res := if leaf then l > 0 else l >= 0;
    case LessEq(_) => res := l >= 0;
    case Equal(_) => res := if leaf then l == 0 else l >= 0 && r <= 0;
    case GreaterEq(_) => res := r <= 0;
    case Greater(_) => res := if leaf then r < 0 else r <= 0;
    case Ancestors(p) =>
      if leaf {
        res := InnerIsParent(p, key.node);
      } else {
        var query := new StoredPath(p);
        assert query.Levels() == p;
        res := GistIsParent(key, query);
      }
    case Descendants(p) =>
      if leaf {
        res := InnerIsParent(key.node, p);
      } else {
        res := GistIsChild(key, p);
      }
  }

  // ------------------------------------------------------------- the scan

  /** The four operators whose tests depend on the sign of a comparison. */
  predicate Ordering(q: Query) {
    q.Less? || q.LessEq? || q.GreaterEq? || q.Greater?
  }

  /** A query may be deeper than any row, but not one of an ordering operator. */
  ghost predicate Trusted(q: Query) {
    IsPath(q.p) && (Ordering(q) ==> Shallow(q.p))
  }

  lemma {:induction false} ShallowSign(a: Path, b: Path)
    requires Shallow(a) && Shallow(b)
    ensures SameSign(Compared(a, b), PathCmp(a, b))
  {
    ShallowFaithful(a, b);
    ComparedSign(a, b);
  }

  /** On the rows of the index the operators are right for every query. */
  lemma {:induction false} OperatorExact(q: Query, row: Path)
    requires Shallow(row) && IsPath(q.p)
    ensures Operator(q, row) <==> Matches(q, row)
  {
    hide Compared, PathCmp;
    ExcessFits(Excess(row, q.p));
    ComparedSign(row, q.p);
  }

  /** The leaf test of an ordering operator is right exactly when the comparison of
      the query with the row keeps its sign. */
  lemma {:induction false} LeafExactIff(q: Query, row: Path)
    requires IsPath(row) && IsPath(q.p)
    ensures Ordering(q) ==> ((LeafTest(q, OneNode(row)) <==> Matches(q, row)) <==> Faithful(q.p, row))
    ensures !Ordering(q) ==> (LeafTest(q, OneNode(row)) <==> Matches(q, row))
  {
    hide Compared, PathCmp, Faithful;
    PathCmpTotal();
    ComparedSign(q.p, row);
  }

  lemma {:induction false} LeafExact(q: Query, k: Key, row: Path)
    requires IsKey(k, row) && Trusted(q)
    ensures LeafTest(q, k) <==> Matches(q, row)
  {
    hide LeafTest, Matches, Faithful;
    if Ordering(q) {
      ShallowFaithful(q.p, row);
    }
    LeafExactIff(q, row);
  }

  /** The leaf test is right on every ancestor of the query exactly when the query
      has at most 14653 levels. */
  lemma {:induction false} LeafOnAncestors(q: Query)
    requires Ordering(q) && IsPath(q.p)
    ensures (forall i :: 0 <= i <= |q.p| ==> (LeafTest(q, OneNode(q.p[..i])) <==> Matches(q, q.p[..i])))
       <==> |q.p| <= MAX_DEPTH
  {
    hide LeafTest, Matches;
    var p := q.p;
    forall i | 0 <= i <= |p|
      ensures (LeafTest(q, OneNode(p[..i])) <==> Matches(q, p[..i])) <==> Faithful(p, p[..i])
    {
      LeafExactIff(q, p[..i]);
    }
    if |p| <= MAX_DEPTH {
      forall i | 0 <= i <= |p| ensures Faithful(p, p[..i]) {
        ShallowFaithful(p, p[..i]);
      }
    } else {
      DeepExcess(p, MAX_DEPTH + 1);
    }
  }

  /** Distances at which the product has wrapped around to a negative number, close
      enough together for every deep path. */
  predicate Negative(d: int) {
    d in {14654, 29308, 41448, 54830}
  }

  lemma {:induction false} DeepExcess(p: Path, d: int)
    requires IsPath(p) && Negative(d) && d <= |p|
    ensures !Faithful(p, p[..|p| - d])
  {
    assert p[..|p| - d] < p;
    assert Scaled(14654, 14655) == 2147543700 - 0x1_0000_0000;
    assert Scaled(29308, 29309) == 8589881720 - 2 * 0x1_0000_0000;
    assert Scaled(41448, 41449) == 17179781520 - 4 * 0x1_0000_0000;
    assert Scaled(54830, 54831) == 30063837300 - 7 * 0x1_0000_0000;
  }

  /** Every path that is too deep has a shallow ancestor it compares wrongly with. */
  lemma {:induction false} WrongAncestor(p: Path) returns (row: Path)
    requires IsPath(p) && !Shallow(p)
    ensures Shallow(row) && row <= p && !Faithful(p, row)
  {
    var n := |p|;
    var d := if n < 29308 then 14654 else if n < 41448 then 29308 else if n < 54830 then 41448 else 54830;
    DeepExcess(p, d);
    row := p[..n - d];
  }

  /** A row that "< p" holds of and that the leaf test refuses. */
  lemma {:induction false} RootLost(p: Path)
    requires IsPath(p) && |p| == 14654
    ensures Matches(Less(p), []) && Operator(Less(p), []) && !LeafTest(Less(p), OneNode([]))
  {
    DeepExcess(p, 14654);
    assert p[..0] == [];
    ComparedSign(p, []);
  }

  /** No key whose bounds enclose a match is refused. */
  lemma {:induction false} InnerSound(q: Query, k: Key, row: Path)
    requires Covers(k, row) && Matches(q, row) && Trusted(q)
    ensures InnerTest(q, k)
  {
    hide Compared, PathCmp, Shallow, PrefixBetween;
    PathCmpTotal();
    match q
    case Less(p) => LeTrans(L(k), row, p); ShallowSign(p, L(k));
    case LessEq(p) => LeTrans(L(k), row, p); ShallowSign(p, L(k));
    case Equal(p) => ShallowSign(p, L(k)); ShallowSign(p, R(k));
    case GreaterEq(p) => LeTrans(p, row, R(k)); ShallowSign(p, R(k));
    case Greater(p) => LeTrans(p, row, R(k)); ShallowSign(p, R(k));
    case Ancestors(p) => AncestorSound(p, k, row);
    case Descendants(p) => DescendantSound(p, k, row);
  }

  lemma {:induction false} AncestorSound(p: Path, k: Key, row: Path)
    requires Covers(k, row) && row <= p
    ensures PrefixBetween(k, p, 0)
  {
    hide Compared, PathCmp, Shallow;
    PathCmpTotal();
    assert row == p[..|row|];
    ShallowSign(row, L(k));
    ShallowSign(row, R(k));
    assert Between(k, p[..|row|]);
  }

  lemma {:induction false} DescendantSound(p: Path, k: Key, row: Path)
    requires Covers(k, row) && p <= row
    ensures InnerTest(Descendants(p), k)
  {
    hide Compared, PathCmp;
    PathCmpTotal();
    TruncMonotone(L(k), row, |p|);
    TruncMonotone(row, R(k), |p|);
    assert Trunc(row, |p|) == p;
    ShallowSign(p, Trunc(L(k), |p|));
    ShallowSign(p, Trunc(R(k), |p|));
  }

  /** What a row below the key must be for the inner test: a match, where the strict
      operators are taken with equality. */
  ghost function Loosened(q: Query): Query {
    match q
    case Less(p) => LessEq(p)
    case Greater(p) => GreaterEq(p)
    case _ => q
  }

  /** The keys the inner test lets pass are just those that can stand above such a
      row. */
  lemma {:induction false} InnerTight(q: Query, k: Key)
    requires Valid(k) && Le(L(k), R(k)) && Shallow(q.p)
    ensures InnerTest(q, k) <==> exists row :: Covers(k, row) && Matches(Loosened(q), row)
  {
    hide Compared, PathCmp, Shallow, PrefixBetween, Covers, Matches, InnerTest, Le;
    if InnerTest(q, k) {
      var row := RowBelow(q, k);
      assert Covers(k, row) && Matches(Loosened(q), row);
    }
    forall row | Covers(k, row) && Matches(Loosened(q), row) ensures InnerTest(q, k) {
      LooseSound(q, k, row);
    }
  }

  lemma {:induction false} LooseSound(q: Query, k: Key, row: Path)
    requires Covers(k, row) && Shallow(q.p) && Matches(Loosened(q), row)
    ensures InnerTest(q, k)
  {
    hide Compared, PathCmp, PrefixBetween, Covers;
    InnerSound(Loosened(q), k, row);
  }

  lemma {:induction false} RowBelow(q: Query, k: Key) returns (row: Path)
    requires Valid(k) && Le(L(k), R(k)) && Shallow(q.p) && InnerTest(q, k)
    ensures Covers(k, row) && Matches(Loosened(q), row)
  {
    hide Compared, PathCmp, Shallow;
    PathCmpTotal();
    var p := q.p;
    match q
    case Less(_) => row := L(k); ShallowSign(p, L(k));
    case LessEq(_) => row := L(k); ShallowSign(p, L(k));
    case Equal(_) => row := p; ShallowSign(p, L(k)); ShallowSign(p, R(k));
    case GreaterEq(_) => row := R(k); ShallowSign(p, R(k));
    case Greater(_) => row := R(k); ShallowSign(p, R(k));
    case Ancestors(_) => row := AncestorBelow(p, k);
    case Descendants(_) => row := DescendantBelow(p, k);
  }

  lemma {:induction false} AncestorBelow(p: Path, k: Key) returns (row: Path)
    requires Valid(k) && Shallow(p) && PrefixBetween(k, p, 0)
    ensures Covers(k, row) && row <= p
  {
    hide Compared, PathCmp;
    PathCmpTotal();
    var i :| 0 <= i <= |p| && Between(k, p[..i]);
    row := p[..i];
    ShallowSign(row, L(k));
    ShallowSign(row, R(k));
  }

  /** If p is not between the bounds it is the start of the left one. */
  lemma {:induction false} DescendantBelow(p: Path, k: Key) returns (row: Path)
    requires Valid(k) && Le(L(k), R(k)) && Shallow(p) && InnerTest(Descendants(p), k)
    ensures Covers(k, row) && p <= row
  {
    hide Compared, PathCmp;
    PathCmpTotal();
    var l, r := Trunc(L(k), |p|), Trunc(R(k), |p|);
    ShallowSign(p, l);
    ShallowSign(p, r);
    if Le(L(k), p) {
      row := p;
      PrefixBelow(r, R(k));
      LeTrans(p, r, R(k));
    } else {
      row := L(k);
      TruncMonotone(p, L(k), |p|);
      assert Trunc(p, |p|) == p;
      assert p == l;
    }
  }

  /** After any run of insertions of paths of at most 14653 levels, the index
      returns just the rows of a sequential scan, without a recheck. */
  lemma {:induction false} IndexAgrees(
    c: GistInsert.OpClass<Key, Path>, ops: seq<GistInsert.Insertion<Key, Path>>, q: Query)
    requires GistInsert.Sound(c) && GistInsert.Proper(c, ops) && GistInsert.After(c, ops).Some?
    requires forall k, row :: c.isKey(k, row) ==> IsKey(k, row)
    requires forall k, d :: c.above(k, d) ==> Above(k, d)
    requires Trusted(q)
    ensures multiset(Search(GistInsert.After(c, ops).value, k => LeafTest(q, k), k => InnerTest(q, k)))
         == multiset(Filter(row => Matches(q, row), GistInsert.Inserted(ops)))
  {
    hide LeafTest, InnerTest, Matches, IsKey, Above, Covers, Trusted, GistInsert.Sound;
    KeysLawful();
    forall k, row | IsKey(k, row) ensures LeafTest(q, k) == Matches(q, row) {
      LeafExact(q, k, row);
    }
    forall k, row | Covers(k, row) && Matches(q, row) ensures InnerTest(q, k) {
      InnerSound(q, k, row);
    }
    GistInsert.RunExact(c, ops, Covers, row => Matches(q, row), k => LeafTest(q, k), k => InnerTest(q, k));
  }

  /** Runs of any sound class over rows of at most 14653 levels. */
  ghost predicate Returning(c: GistInsert.OpClass<Key, Path>, ops: seq<GistInsert.Insertion<Key, Path>>) {
    (forall k, row :: c.isKey(k, row) ==> IsKey(k, row)) && (forall k, d :: c.above(k, d) ==> Above(k, d))
    && GistInsert.Sound(c) && GistInsert.Proper(c, ops) && GistInsert.After(c, ops).Some?
  }

  ghost predicate Agrees(c: GistInsert.OpClass<Key, Path>, ops: seq<GistInsert.Insertion<Key, Path>>, q: Query)
    requires GistInsert.Sound(c) && GistInsert.Proper(c, ops) && GistInsert.After(c, ops).Some?
  {
    multiset(Search(GistInsert.After(c, ops).value, k => LeafTest(q, k), k => InnerTest(q, k)))
      == multiset(Filter(row => Operator(q, row), GistInsert.Inserted(ops)))
  }

  /** Index and sequential scan agree after every run exactly when the query has at
      most 14653 levels or its operator is =, @> or <@. */
  lemma {:induction false} IndexAgreesIff(q: Query)
    requires IsPath(q.p)
    ensures (forall c, ops :: Returning(c, ops) ==> Agrees(c, ops, q)) <==> (Ordering(q) ==> |q.p| <= MAX_DEPTH)
  {
    hide Agrees, GistInsert.Sound, GistInsert.After, GistInsert.Proper;
    if Ordering(q) && |q.p| > MAX_DEPTH {
      var row := WrongAncestor(q.p);
      var c, ops := WrongRun(q, row);
      assert Returning(c, ops) && !Agrees(c, ops, q);
    } else {
      forall c, ops | Returning(c, ops) ensures Agrees(c, ops, q) {
        TrustedAgrees(c, ops, q);
      }
    }
  }

  lemma {:induction false} TrustedAgrees(
    c: GistInsert.OpClass<Key, Path>, ops: seq<GistInsert.Insertion<Key, Path>>, q: Query)
    requires Returning(c, ops) && Trusted(q)
    ensures Agrees(c, ops, q)
  {
    hide LeafTest, InnerTest, Matches, Operator, Above, IsPath, Shallow, GistInsert.Sound, GistInsert.After;
    IndexAgrees(c, ops, q);
    var rows := GistInsert.Inserted(ops);
    InsertedShallow(c, ops);
    forall row | row in rows ensures Operator(q, row) == Matches(q, row) {
      OperatorExact(q, row);
    }
    FilterSame(row => Operator(q, row), row => Matches(q, row), rows);
  }

  lemma {:induction false} InsertedShallow(
    c: GistInsert.OpClass<Key, Path>, ops: seq<GistInsert.Insertion<Key, Path>>)
    requires forall k, row :: c.isKey(k, row) ==> IsKey(k, row)
    requires GistInsert.Proper(c, ops)
    ensures forall row :: row in GistInsert.Inserted(ops) ==> Shallow(row)
  {
    hide Shallow;
    if ops != [] {
      InsertedShallow(c, ops[..|ops| - 1]);
    }
  }

  lemma {:induction false} FilterSame<V>(f: V -> bool, g: V -> bool, vs: seq<V>)
    requires forall v :: v in vs ==> f(v) == g(v)
    ensures Filter(f, vs) == Filter(g, vs)
  {
    if vs != [] {
      FilterSame(f, g, vs[1..]);
    }
  }

  /** One insertion of a row that the query compares wrongly with. */
  lemma {:induction false} WrongRun(q: Query, row: Path)
    returns (c: GistInsert.OpClass<Key, Path>, ops: seq<GistInsert.Insertion<Key, Path>>)
    requires Ordering(q) && IsPath(q.p) && Shallow(row) && !Faithful(q.p, row)
    ensures Returning(c, ops) && !Agrees(c, ops, q)
  {
    hide LeafTest, InnerTest, Matches, Operator, Above, Valid, Faithful, Join, GistInsert.Sound, GistInsert.After,
      Search, Filter, IsPath, GistInsert.Supported;
    var space := GistInsert.Space((stay: seq<Key>, news: seq<Key>) => true, (ks: seq<Key>) => true);
    ClassExists(space, []);
    c := GistInsert.Plain(Valid, IsKey, Above, (a, b) => Some(Join(a, b)), space);
    ops := [GistInsert.Insertion(OneNode(row), row, [])];
    GistInsert.OneRun(c, OneNode(row), row);
    LeafExactIff(q, row);
    OperatorExact(q, row);
    OneFound(OneNode(row), row, k => LeafTest(q, k), k => InnerTest(q, k), v => Operator(q, v));
  }

  lemma {:induction false} OneFound(
    k: Key, row: Path, leaf: Key -> bool, inner: Key -> bool, f: Path -> bool)
    requires leaf(k) != f(row)
    ensures multiset(Search([Leaf(k, row)], leaf, inner)) != multiset(Filter(f, [row]))
  {
    assert [Leaf(k, row)][1..] == [] && [row][1..] == [];
    assert Search([Leaf(k, row)], leaf, inner) == if leaf(k) then [row] else [];
    assert Filter(f, [row]) == if f(row) then [row] else [];
    assert |multiset([row])| == 1;
  }
}
