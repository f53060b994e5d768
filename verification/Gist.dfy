/** What the GiST support functions of every key type must achieve together:
    a search that follows only entries whose key is consistent with the query
    misses no row, and a page split places every entry once, under a key that
    covers it. */
module Gist {

  /** An index entry: a leaf entry points to a row, an inner one to a page. */
  datatype Tree<K, V> = Leaf(key: K, row: V) | Node(key: K, kids: seq<Tree<K, V>>)

  /** All rows below a page, in stored order. */
  ghost function Rows<K, V>(ts: seq<Tree<K, V>>): seq<V>
    decreases ts
  {
    if ts == [] then [] else Below(ts[0]) + Rows(ts[1..])
  }

  ghost function Below<K, V>(t: Tree<K, V>): seq<V>
    decreases t
  {
    match t case Leaf(_, v) => [v] case Node(_, kids) => Rows(kids)
  }

  /** The index scan: descend where the inner test passes, emit where the leaf
      test passes. */
  ghost function Search<K, V>(ts: seq<Tree<K, V>>, leaf: K -> bool, inner: K -> bool): seq<V>
    decreases ts
  {
    if ts == [] then [] else Visit(ts[0], leaf, inner) + Search(ts[1..], leaf, inner)
  }

  ghost function Visit<K, V>(t: Tree<K, V>, leaf: K -> bool, inner: K -> bool): seq<V>
    decreases t
  {
    match t
    case Leaf(k, v) => if leaf(k) then [v] else []
    case Node(k, kids) => if inner(k) then Search(kids, leaf, inner) else []
  }

  ghost function Filter<V>(f: V -> bool, vs: seq<V>): seq<V> {
    if vs == [] then [] else (if f(vs[0]) then [vs[0]] else []) + Filter(f, vs[1..])
  }

  /** Keys as the support functions make them: isKey relates a leaf key to its
      row, above an inner key to each key on its page. */
  ghost predicate WellKeyed<K, V>(ts: seq<Tree<K, V>>, isKey: (K, V) -> bool, above: (K, K) -> bool)
    decreases ts
  {
    forall i :: 0 <= i < |ts| ==> Keyed(ts[i], isKey, above)
  }

  ghost predicate Keyed<K, V>(t: Tree<K, V>, isKey: (K, V) -> bool, above: (K, K) -> bool)
    decreases t
  {
    match t
    case Leaf(k, v) => isKey(k, v)
    case Node(k, kids) => (forall j :: 0 <= j < |kids| ==> above(k, kids[j].key)) && WellKeyed(kids, isKey, above)
  }

  /** covers is what an inner key knows about the rows below it. */
  ghost predicate Lawful<K(!new), V(!new)>(isKey: (K, V) -> bool, above: (K, K) -> bool, covers: (K, V) -> bool) {
    (forall k, v :: isKey(k, v) ==> covers(k, v))
    && forall k, c, v :: above(k, c) && covers(c, v) ==> covers(k, v)
  }

  lemma {:induction false} FilterAppend<V>(f: V -> bool, a: seq<V>, b: seq<V>)
    ensures Filter(f, a + b) == Filter(f, a) + Filter(f, b)
  {
    if a == [] {
      assert a + b == b;
    } else {
      FilterAppend(f, a[1..], b);
      assert (a + b)[1..] == a[1..] + b;
      Assoc(if f(a[0]) then [a[0]] else [], Filter(f, a[1..]), Filter(f, b));
    }
  }

  lemma {:induction false} Assoc<T>(x: seq<T>, y: seq<T>, z: seq<T>)
    ensures x + (y + z) == (x + y) + z
  {
  }

  /** Every key above a row covers it. */
  lemma {:induction false} KeysCover<K(!new), V(!new)>(
    t: Tree<K, V>, isKey: (K, V) -> bool, above: (K, K) -> bool, covers: (K, V) -> bool, v: V)
    requires Lawful(isKey, above, covers) && Keyed(t, isKey, above) && v in Below(t)
    ensures covers(t.key, v)
    decreases t
  {
    if t.Node? {
      var i := PageOf(t.kids, v);
      KeysCover(t.kids[i], isKey, above, covers, v);
    }
  }

  lemma {:induction false} PageOf<K, V>(ts: seq<Tree<K, V>>, v: V) returns (i: nat)
    requires v in Rows(ts)
    ensures i < |ts| && v in Below(ts[i])
  {
    hide Below;
    i := 0;
    if v !in Below(ts[0]) {
      i := PageOf(ts[1..], v);
      i := i + 1;
    }
  }

  /** No query loses a row: the scan returns, among other things, every row that
      matches, in the order of a scan of all rows. */
  lemma {:induction false} NeverPruned<K(!new), V(!new)>(
    ts: seq<Tree<K, V>>, isKey: (K, V) -> bool, above: (K, K) -> bool, covers: (K, V) -> bool,
    matches: V -> bool, leaf: K -> bool, inner: K -> bool)
    requires Lawful(isKey, above, covers) && WellKeyed(ts, isKey, above)
    requires forall k, v :: isKey(k, v) && matches(v) ==> leaf(k)
    requires forall k, v :: covers(k, v) && matches(v) ==> inner(k)
    ensures Filter(matches, Search(ts, leaf, inner)) == Filter(matches, Rows(ts))
    decreases ts
  {
    if ts != [] {
      NeverPrunedBelow(ts[0], isKey, above, covers, matches, leaf, inner);
      NeverPruned(ts[1..], isKey, above, covers, matches, leaf, inner);
      FilterAppend(matches, Visit(ts[0], leaf, inner), Search(ts[1..], leaf, inner));
      FilterAppend(matches, Below(ts[0]), Rows(ts[1..]));
    }
  }

  lemma {:induction false} NeverPrunedBelow<K(!new), V(!new)>(
    t: Tree<K, V>, isKey: (K, V) -> bool, above: (K, K) -> bool, covers: (K, V) -> bool,
    matches: V -> bool, leaf: K -> bool, inner: K -> bool)
    requires Lawful(isKey, above, covers) && Keyed(t, isKey, above)
    requires forall k, v :: isKey(k, v) && matches(v) ==> leaf(k)
    requires forall k, v :: covers(k, v) && matches(v) ==> inner(k)
    ensures Filter(matches, Visit(t, leaf, inner)) == Filter(matches, Below(t))
    decreases t
  {
    match t
    case Leaf(k, v) =>
      assert isKey(k, v);
    case Node(k, kids) =>
      if inner(k) {
        NeverPruned(kids, isKey, above, covers, matches, leaf, inner);
      } else {
        forall v | v in Below(t) ensures !matches(v) {
          KeysCover(t, isKey, above, covers, v);
        }
        NoneLeft(matches, Below(t));
      }
  }

  lemma {:induction false} NoneLeft<V>(f: V -> bool, vs: seq<V>)
    requires forall v :: v in vs ==> !f(v)
    ensures Filter(f, vs) == []
  {
    if vs != [] {
      assert vs[0] in vs;
      NoneLeft(f, vs[1..]);
    }
  }

  lemma {:induction false} AllLeft<V>(f: V -> bool, vs: seq<V>)
    requires forall v :: v in vs ==> f(v)
    ensures Filter(f, vs) == vs
  {
    if vs != [] {
      AllLeft(f, vs[1..]);
    }
  }

  lemma {:induction false} StillThere<V>(f: V -> bool, vs: seq<V>, v: V)
    requires v in vs && f(v)
    ensures v in Filter(f, vs)
  {
    if v != vs[0] {
      StillThere(f, vs[1..], v);
    }
  }

  /** Where the leaf test is exact, the scan needs no recheck: it returns the
      matching rows and nothing else. */
  lemma {:induction false} ExactSearch<K(!new), V(!new)>(
    ts: seq<Tree<K, V>>, isKey: (K, V) -> bool, above: (K, K) -> bool, covers: (K, V) -> bool,
    matches: V -> bool, leaf: K -> bool, inner: K -> bool)
    requires Lawful(isKey, above, covers) && WellKeyed(ts, isKey, above)
    requires forall k, v :: isKey(k, v) ==> leaf(k) == matches(v)
    requires forall k, v :: covers(k, v) && matches(v) ==> inner(k)
    ensures Search(ts, leaf, inner) == Filter(matches, Rows(ts))
  {
    NeverPruned(ts, isKey, above, covers, matches, leaf, inner);
    OnlyMatches(ts, isKey, above, matches, leaf, inner);
    AllLeft(matches, Search(ts, leaf, inner));
  }

  lemma {:induction false} OnlyMatches<K(!new), V(!new)>(
    ts: seq<Tree<K, V>>, isKey: (K, V) -> bool, above: (K, K) -> bool,
    matches: V -> bool, leaf: K -> bool, inner: K -> bool)
    requires WellKeyed(ts, isKey, above)
    requires forall k, v :: isKey(k, v) ==> leaf(k) == matches(v)
    ensures forall v :: v in Search(ts, leaf, inner) ==> matches(v)
    decreases ts
  {
    if ts != [] {
      OnlyMatches(ts[1..], isKey, above, matches, leaf, inner);
      match ts[0]
      case Leaf(k, v) => assert isKey(k, v);
      case Node(k, kids) => OnlyMatches(kids, isKey, above, matches, leaf, inner);
    }
  }

  // ------------------------------------------------------- page splits

  /** What a page split owes the tree: entries stand at offsets 1 and up, each
      goes to exactly one side, neither side is empty, and each side's new key
      is above every entry placed there. */
  ghost predicate SplitOk<K>(entries: seq<K>, above: (K, K) -> bool, left: seq<int>, right: seq<int>, l: K, r: K) {
    multiset(left + right) == multiset(Offsets(|entries| - 1)) && left != [] && right != []
    && AboveAll(entries, above, left, l) && AboveAll(entries, above, right, r)
  }

  ghost predicate AboveAll<K>(entries: seq<K>, above: (K, K) -> bool, side: seq<int>, k: K) {
    forall p :: 0 <= p < |side| ==> 0 <= side[p] < |entries| && above(k, entries[side[p]])
  }

  function Offsets(n: int): (s: seq<int>)
    ensures |s| == (if n < 0 then 0 else n)
    ensures forall i :: 0 <= i < |s| ==> s[i] == i + 1
  {
    if n <= 0 then [] else Offsets(n - 1) + [n]
  }

  /** The two entries that would waste most space on one page, among all but the
      last; 1 and 2 when there is no pair to choose from. */
  method PickSeeds(n: int, waste: (int, int) -> real) returns (seed1: int, seed2: int)
    requires n >= 2
    ensures 1 <= seed1 < seed2 <= n
    ensures n == 2 ==> seed1 == 1 && seed2 == 2
    ensures n > 2 ==> seed2 < n && forall i, j :: 1 <= i < j < n ==> waste(i, j) <= waste(seed1, seed2)
  {
    seed1, seed2 := 0, 0;
    var most := 0.0;
    var i := 1;
    while i < n - 1
      invariant 1 <= i <= n - 1
      invariant (seed1 == 0 <==> i == 1) && (seed1 == 0 ==> seed2 == 0)
      invariant seed1 != 0 ==> 1 <= seed1 < seed2 < n && most == waste(seed1, seed2)
      invariant forall x, y :: 1 <= x < i && x < y < n ==> waste(x, y) <= most
    {
      var j := i + 1;
      while j < n
        invariant i + 1 <= j <= n
        invariant (seed1 == 0 <==> i == 1 && j == 2) && (seed1 == 0 ==> seed2 == 0)
        invariant seed1 != 0 ==> 1 <= seed1 < seed2 < n && most == waste(seed1, seed2)
        invariant forall x, y :: 1 <= x < i && x < y < n ==> waste(x, y) <= most
        invariant forall y :: i < y < j ==> waste(i, y) <= most
      {
        if waste(i, j) > most || seed1 == 0 {
          most := waste(i, j);
          seed1, seed2 := i, j;
        }
        j := j + 1;
      }
      i := i + 1;
    }
    if seed1 == 0 || seed2 == 0 {
      seed1, seed2 := 1, 2;
    }
  }

  /** WISH_F: the bias towards the shorter side. */
  function Wish(a: int, b: int, c: real): real {
    -(((a - b) * (a - b) * (a - b)) as real) * c
  }

  ghost predicate Preorder(le: (int, int) -> bool) {
    (forall i, j :: le(i, j) || le(j, i)) && forall i, j, k :: le(i, j) && le(j, k) ==> le(i, k)
  }

  ghost predicate InOrder(order: seq<int>, le: (int, int) -> bool) {
    forall i, j :: 0 <= i < j < |order| ==> le(order[i], order[j])
  }

  /** The offsets sorted as `qsort` would. */
  method SortOffsets(n: nat, le: (int, int) -> bool) returns (order: seq<int>)
    requires Preorder(le)
    ensures multiset(order) == multiset(Offsets(n)) && InOrder(order, le)
  {
    hide Preorder, Offsets, InOrder;
    order := [];
    var i := 0;
    NothingInOrder(le);
    while i < n
      invariant 0 <= i <= n && multiset(order) == multiset(Offsets(i)) && InOrder(order, le)
    {
      i := i + 1;
      var p := 0;
      while p < |order| && le(order[p], i)
        invariant 0 <= p <= |order| && forall k :: 0 <= k < p ==> le(order[k], i)
      {
        p := p + 1;
      }
      SnocOffset(i);
      InsertPermutes(order, p, i);
      InsertKeeps(order, p, i, le, order[..p] + [i] + order[p..]);
      order := order[..p] + [i] + order[p..];
    }
  }

  lemma {:induction false} NothingInOrder(le: (int, int) -> bool)
    ensures InOrder([], le)
  {
  }

  lemma {:induction false} SnocOffset(n: int)
    requires n > 0
    ensures Offsets(n) == Offsets(n - 1) + [n]
  {
  }

  lemma {:induction false} Compares(le: (int, int) -> bool, i: int, j: int, k: int)
    requires Preorder(le)
    ensures le(i, j) || le(j, i)
    ensures le(i, j) && le(j, k) ==> le(i, k)
  {
  }

  lemma {:induction false} InsertPermutes(order: seq<int>, p: nat, x: int)
    requires p <= |order|
    ensures multiset(order[..p] + [x] + order[p..]) == multiset(order) + multiset{x}
  {
    assert order == order[..p] + order[p..];
  }

  lemma {:induction false} InsertKeeps(order: seq<int>, p: nat, x: int, le: (int, int) -> bool, t: seq<int>)
    requires Preorder(le) && p <= |order| && InOrder(order, le) && t == order[..p] + [x] + order[p..]
    requires forall k :: 0 <= k < p ==> le(order[k], x)
    requires p < |order| ==> !le(order[p], x)
    ensures InOrder(t, le)
  {
    hide Preorder;
    forall k | p <= k < |order| ensures le(x, order[k]) {
      Compares(le, x, order[p], order[k]);
      assert k == p || le(order[p], order[k]);
    }
    assert forall i :: 0 <= i < p ==> t[i] == order[i];
    assert t[p] == x;
    assert forall i :: p < i < |t| ==> t[i] == order[i - 1];
  }

  /** k is above the entries at these offsets, and below every key that is. */
  ghost predicate IsLeast<K(!new)>(entries: seq<K>, above: (K, K) -> bool, side: seq<int>, k: K) {
    AboveAll(entries, above, side, k) && forall c :: AboveAll(entries, above, side, c) ==> above(c, k)
  }

  /** No side got a wider key than its entries need. */
  ghost predicate SplitTight<K(!new)>(
    entries: seq<K>, above: (K, K) -> bool, left: seq<int>, right: seq<int>, l: K, r: K)
  {
    IsLeast(entries, above, left, l) && IsLeast(entries, above, right, r)
  }

  /** k' is what k becomes when it takes in x. */
  ghost predicate Joins<K(!new)>(above: (K, K) -> bool, k': K, k: K, x: K) {
    above(k', x) && (forall c :: above(k, c) ==> above(k', c))
    && forall c :: above(c, k) && above(c, x) ==> above(c, k')
  }

  lemma {:induction false} OneMore<K>(entries: seq<K>, above: (K, K) -> bool, side: seq<int>, seed: int, x: int, c: K)
    requires 0 <= x < |entries|
    ensures AboveAll(entries, above, side + [x] + [seed], c)
       <==> AboveAll(entries, above, side + [seed], c) && above(c, entries[x])
  {
    var s, t := side + [seed], side + [x] + [seed];
    assert t[|side|] == x;
    assert forall p :: 0 <= p < |s| ==> s[p] == t[if p < |side| then p else p + 1];
    assert forall p :: 0 <= p < |t| ==> t[p] == x || t[p] == s[if p < |side| then p else p - 1];
  }

  lemma {:induction false} SideGrows<K(!new)>(
    entries: seq<K>, above: (K, K) -> bool, side: seq<int>, seed: int, x: int, k: K, k': K)
    requires IsLeast(entries, above, side + [seed], k) && 0 <= x < |entries| && Joins(above, k', k, entries[x])
    ensures IsLeast(entries, above, side + [x] + [seed], k')
  {
    RaiseKey(entries, above, side + [seed], k, k');
    OneMore(entries, above, side, seed, x, k');
    forall c | AboveAll(entries, above, side + [x] + [seed], c) ensures above(c, k') {
      OneMore(entries, above, side, seed, x, c);
    }
  }

  lemma {:induction false} RaiseKey<K(!new)>(entries: seq<K>, above: (K, K) -> bool, side: seq<int>, k: K, k': K)
    requires AboveAll(entries, above, side, k) && forall c :: above(k, c) ==> above(k', c)
    ensures AboveAll(entries, above, side, k')
  {
  }

  /** After the first j entries of order have been dealt out. */
  ghost predicate Dealt<K(!new)>(
    entries: seq<K>, above: (K, K) -> bool, order: seq<int>, j: int, left: seq<int>, right: seq<int>,
    seed1: int, seed2: int, l: K, r: K)
  {
    0 <= j <= |order| && multiset(left + right) == multiset(order[..j])
    && (seed1 in order[..j] ==> seed1 in left) && (seed2 in order[..j] ==> seed2 in right)
    && IsLeast(entries, above, left + [seed1], l) && IsLeast(entries, above, right + [seed2], r)
  }

  lemma {:induction false} DealStart<K(!new)>(
    entries: seq<K>, above: (K, K) -> bool, order: seq<int>, seed1: int, seed2: int, l: K, r: K)
    requires 0 <= seed1 < |entries| && 0 <= seed2 < |entries|
    requires above(l, entries[seed1]) && forall c :: above(c, entries[seed1]) ==> above(c, l)
    requires above(r, entries[seed2]) && forall c :: above(c, entries[seed2]) ==> above(c, r)
    ensures Dealt(entries, above, order, 0, [], [], seed1, seed2, l, r)
  {
    assert [] + [seed1] == [seed1] && [] + [seed2] == [seed2];
    assert forall c :: AboveAll(entries, above, [seed1], c) ==> above(c, entries[[seed1][0]]);
    assert forall c :: AboveAll(entries, above, [seed2], c) ==> above(c, entries[[seed2][0]]);
  }

  /** The next entry goes left. */
  lemma {:induction false} DealLeft<K(!new)>(
    entries: seq<K>, above: (K, K) -> bool, order: seq<int>, j: int, left: seq<int>, right: seq<int>,
    seed1: int, seed2: int, l: K, r: K, l': K)
    requires Dealt(entries, above, order, j, left, right, seed1, seed2, l, r)
    requires j < |order| && 0 <= order[j] < |entries| && order[j] != seed2 && Joins(above, l', l, entries[order[j]])
    ensures Dealt(entries, above, order, j + 1, left + [order[j]], right, seed1, seed2, l', r)
  {
    hide IsLeast, Joins;
    var x := order[j];
    assert order[..j + 1] == order[..j] + [x];
    assert multiset(left + [x] + right) == multiset(left + right) + multiset{x};
    SideGrows(entries, above, left, seed1, x, l, l');
  }

  lemma {:induction false} DealRight<K(!new)>(
    entries: seq<K>, above: (K, K) -> bool, order: seq<int>, j: int, left: seq<int>, right: seq<int>,
    seed1: int, seed2: int, l: K, r: K, r': K)
    requires Dealt(entries, above, order, j, left, right, seed1, seed2, l, r)
    requires j < |order| && 0 <= order[j] < |entries| && order[j] != seed1 && Joins(above, r', r, entries[order[j]])
    ensures Dealt(entries, above, order, j + 1, left, right + [order[j]], seed1, seed2, l, r')
  {
    hide IsLeast, Joins;
    var x := order[j];
    assert order[..j + 1] == order[..j] + [x];
    assert multiset(left + (right + [x])) == multiset(left + right) + multiset{x};
    SideGrows(entries, above, right, seed2, x, r, r');
  }

  /** A seed is taken in already. */
  lemma {:induction false} DealtSeed<K(!new)>(
    entries: seq<K>, above: (K, K) -> bool, order: seq<int>, j: int, left: seq<int>, right: seq<int>,
    seed1: int, seed2: int, l: K, r: K)
    requires Dealt(entries, above, order, j, left, right, seed1, seed2, l, r)
    ensures 0 <= seed1 < |entries| && Joins(above, l, l, entries[seed1])
    ensures 0 <= seed2 < |entries| && Joins(above, r, r, entries[seed2])
  {
    assert (left + [seed1])[|left|] == seed1;
    assert (right + [seed2])[|right|] == seed2;
  }

  lemma {:induction false} DealtAll<K(!new)>(
    entries: seq<K>, above: (K, K) -> bool, order: seq<int>, left: seq<int>, right: seq<int>,
    seed1: int, seed2: int, l: K, r: K)
    requires Dealt(entries, above, order, |order|, left, right, seed1, seed2, l, r)
    requires multiset(order) == multiset(Offsets(|entries| - 1))
    requires 1 <= seed1 < |entries| && 1 <= seed2 < |entries|
    ensures SplitOk(entries, above, left, right, l, r) && SplitTight(entries, above, left, right, l, r)
  {
    hide AboveAll, Offsets, IsLeast;
    assert order[..|order|] == order;
    SeedsDealt(order, |entries| - 1, seed1);
    SeedsDealt(order, |entries| - 1, seed2);
    Shorter(entries, above, left, seed1, l);
    Shorter(entries, above, right, seed2, r);
  }

  lemma {:induction false} SeedsDealt(order: seq<int>, n: int, x: int)
    requires multiset(order) == multiset(Offsets(n)) && 1 <= x <= n
    ensures x in order
  {
    assert Offsets(n)[x - 1] == x;
    assert x in multiset(order);
  }

  lemma {:induction false} OffsetBounds(order: seq<int>, n: int, j: int)
    requires multiset(order) == multiset(Offsets(n)) && 0 <= j < |order|
    ensures 1 <= order[j] <= n
  {
    assert order[j] in multiset(Offsets(n));
  }

  lemma {:induction false} Shorter<K(!new)>(entries: seq<K>, above: (K, K) -> bool, side: seq<int>, x: int, k: K)
    requires IsLeast(entries, above, side + [x], k) && x in side
    ensures IsLeast(entries, above, side, k) && AboveAll(entries, above, side, k)
  {
    forall c ensures AboveAll(entries, above, side + [x], c) <==> AboveAll(entries, above, side, c) {
      assert forall p :: 0 <= p < |side| ==> (side + [x])[p] == side[p];
    }
  }
}
