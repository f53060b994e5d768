/** Growing a GiST index.  Insertion descends to a leaf page, splits pages that
    overflow and widens the keys on the way back up until one is wide enough.
    Whatever path is taken and whenever pages split, every index that a run of
    insertions builds is well keyed and holds exactly the rows inserted.  A
    support function may fail, and the run with it. */
module GistInsert {
  import opened Common
  import opened Gist

  datatype Adjusted<K> = Enough | Raised(key: K) | NotRaised

  datatype Split<K> = Split(left: seq<int>, right: seq<int>, l: K, r: K)

  /** The support functions of an operator class, with the relations that say
      what its keys mean. */
  datatype OpClass<!K, !V> = OpClass(
    valid: K -> bool,
    isKey: (K, V) -> bool,
    above: (K, K) -> bool,
    adjust: (K, K) -> Adjusted<K>,
    unionAll: seq<K> -> Option<K>,
    pick: seq<K> -> Option<Split<K>>,
    space: Space<K>)

  /** How much a page holds.  `gistnospace` asks whether there is room for new
      entries beside those that stay, and leaves some space free; `gistfitpage`
      asks whether the entries of one side of a split fit a page. */
  datatype Space<!K> = Space(room: (seq<K>, seq<K>) -> bool, fits: seq<K> -> bool)

  /** One entry always fits. */
  ghost predicate Roomy<K(!new)>(space: Space<K>) {
    (forall k :: space.room([], [k])) && forall ks :: |ks| <= 1 ==> space.fits(ks)
  }

  /** The support functions do their part: each result they return is as the
      contracts of the operator class's methods promise. */
  ghost predicate Supported<K(!new), V>(c: OpClass<K, V>) {
    (forall a, b :: c.valid(a) && c.valid(b) ==> Adjusts(c.valid, c.above, a, b, c.adjust(a, b)))
    && (forall ks :: ks != [] && AllValid(c.valid, ks) ==> Unites(c.valid, c.above, ks, c.unionAll(ks)))
    && (forall ks :: |ks| >= 3 && AllValid(c.valid, ks) ==> Halves(c.valid, c.above, ks, c.pick(ks)))
    && Roomy(c.space)
  }

  /** None of them fails on valid keys, as long as no more than n are united. */
  ghost predicate Total<K(!new), V>(c: OpClass<K, V>, n: nat) {
    (forall a, b :: c.valid(a) && c.valid(b) ==> !c.adjust(a, b).NotRaised?)
    && (forall ks :: 0 < |ks| <= n && AllValid(c.valid, ks) ==> c.unionAll(ks).Some?)
    && (forall ks :: |ks| >= 3 && AllValid(c.valid, ks) ==> c.pick(ks).Some?)
  }

  /** What insertion relies on. */
  ghost predicate Sound<K(!new), V(!new)>(c: OpClass<K, V>) {
    (forall k, v :: c.isKey(k, v) ==> c.valid(k))
    && (forall a, b, k :: c.above(a, b) && c.above(b, k) ==> c.above(a, k))
    && Supported(c)
  }

  ghost predicate AllValid<K>(valid: K -> bool, ks: seq<K>) {
    forall i :: 0 <= i < |ks| ==> valid(ks[i])
  }

  /** `gistgetadjusted`: either the old key will do, or the new one is above both. */
  ghost predicate Adjusts<K>(valid: K -> bool, above: (K, K) -> bool, a: K, b: K, r: Adjusted<K>) {
    match r
    case Enough => above(a, b)
    case Raised(k) => valid(k) && above(k, a) && above(k, b)
    case NotRaised => true
  }

  /** `gistunion`: a key above all, if any. */
  ghost predicate Unites<K>(valid: K -> bool, above: (K, K) -> bool, ks: seq<K>, k: Option<K>) {
    k.Some? ==> valid(k.value) && forall i :: 0 <= i < |ks| ==> above(k.value, ks[i])
  }

  /** One page split, with the new keys as they are stored, if any. */
  ghost predicate Halves<K>(valid: K -> bool, above: (K, K) -> bool, ks: seq<K>, h: Option<Split<K>>) {
    h.Some? ==>
      var p := h.value;
      valid(p.l) && valid(p.r) && SplitOk(ks, above, p.left, p.right, p.l, p.r)
  }

  // ------------------------------------------------------------- pages

  ghost function Keys<K, V>(page: seq<Tree<K, V>>): (ks: seq<K>)
    ensures |ks| == |page| && forall i :: 0 <= i < |ks| ==> ks[i] == page[i].key
  {
    if page == [] then [] else [page[0].key] + Keys(page[1..])
  }

  /** Well keyed, with valid keys throughout and no empty page below. */
  ghost predicate Good<K, V>(c: OpClass<K, V>, page: seq<Tree<K, V>>)
    decreases page
  {
    forall i :: 0 <= i < |page| ==> GoodEntry(c, page[i])
  }

  ghost predicate GoodEntry<K, V>(c: OpClass<K, V>, t: Tree<K, V>)
    decreases t
  {
    c.valid(t.key)
    && match t
       case Leaf(k, v) => c.isKey(k, v)
       case Node(k, kids) => kids != [] && Under(c, k, kids) && Good(c, kids)
  }

  ghost predicate Under<K, V>(c: OpClass<K, V>, k: K, page: seq<Tree<K, V>>) {
    forall j :: 0 <= j < |page| ==> c.above(k, page[j].key)
  }

  lemma {:induction false} GoodIsWellKeyed<K, V>(c: OpClass<K, V>, page: seq<Tree<K, V>>)
    requires Good(c, page)
    ensures WellKeyed(page, c.isKey, c.above)
    decreases page
  {
    forall i | 0 <= i < |page| ensures Keyed(page[i], c.isKey, c.above) {
      assert GoodEntry(c, page[i]);
      if page[i].Node? {
        GoodIsWellKeyed(c, page[i].kids);
      }
    }
  }

  lemma {:induction false} RowsAppend<K, V>(a: seq<Tree<K, V>>, b: seq<Tree<K, V>>)
    ensures Rows(a + b) == Rows(a) + Rows(b)
  {
    hide Below;
    if a == [] {
      assert a + b == b;
    } else {
      RowsAppend(a[1..], b);
      assert (a + b)[1..] == a[1..] + b;
      Assoc(Below(a[0]), Rows(a[1..]), Rows(b));
    }
  }

  lemma {:induction false} RowsOne<K, V>(t: Tree<K, V>)
    ensures Rows([t]) == Below(t)
  {
    assert [t][1..] == [];
  }

  // --------------------------------------------------------- gistSplit

  /** The entries at the given offsets, which count from 1. */
  ghost function Select<K, V>(page: seq<Tree<K, V>>, side: seq<int>): (s: seq<Tree<K, V>>)
    requires forall p :: 0 <= p < |side| ==> 1 <= side[p] <= |page|
    ensures |s| == |side| && forall p :: 0 <= p < |s| ==> s[p] == page[side[p] - 1]
  {
    if side == [] then [] else [page[side[0] - 1]] + Select(page, side[1..])
  }

  /** The entry vector: its first place is not used. */
  ghost function Vector<K, V>(page: seq<Tree<K, V>>): (ks: seq<K>)
    requires page != []
    ensures |ks| == |page| + 1 && forall i :: 0 < i < |ks| ==> ks[i] == page[i - 1].key
  {
    [page[0].key] + Keys(page)
  }

  lemma {:induction false} PickHalves<K(!new), V(!new)>(c: OpClass<K, V>, page: seq<Tree<K, V>>)
    requires Sound(c) && Good(c, page) && |page| >= 2
    ensures Halves(c.valid, c.above, Vector(page), c.pick(Vector(page)))
  {
    hide Good, Halves, Vector;
    VectorValid(c, page);
  }

  lemma {:induction false} PickedSides<K(!new), V(!new)>(c: OpClass<K, V>, page: seq<Tree<K, V>>)
    requires Sound(c) && Good(c, page) && |page| >= 2 && c.pick(Vector(page)).Some?
    ensures var p := c.pick(Vector(page)).value;
      && Halves(c.valid, c.above, Vector(page), Some(p))
      && (forall i :: 0 <= i < |p.left| ==> 1 <= p.left[i] <= |page|)
      && (forall i :: 0 <= i < |p.right| ==> 1 <= p.right[i] <= |page|)
      && 0 < |p.left| < |page| && 0 < |p.right| < |page|
  {
    hide Good, Sound, Vector, Offsets, AboveAll;
    PickHalves(c, page);
    var p := c.pick(Vector(page)).value;
    assert |p.left + p.right| == |multiset(p.left + p.right)| == |multiset(Offsets(|page|))| == |page|;
    forall i | 0 <= i < |p.left| ensures 1 <= p.left[i] <= |page| {
      assert (p.left + p.right)[i] == p.left[i];
      OffsetBounds(p.left + p.right, |page|, i);
    }
    forall i | 0 <= i < |p.right| ensures 1 <= p.right[i] <= |page| {
      assert (p.left + p.right)[|p.left| + i] == p.right[i];
      OffsetBounds(p.left + p.right, |page|, |p.left| + i);
    }
  }

  lemma {:induction false} VectorValid<K, V>(c: OpClass<K, V>, page: seq<Tree<K, V>>)
    requires Good(c, page) && page != []
    ensures AllValid(c.valid, Vector(page)) && AllValid(c.valid, Keys(page))
  {
    forall i | 0 <= i < |page| ensures c.valid(page[i].key) {
      assert GoodEntry(c, page[i]);
    }
  }

  lemma {:induction false} SelectGood<K, V>(c: OpClass<K, V>, page: seq<Tree<K, V>>, side: seq<int>, k: K)
    requires Good(c, page) && page != [] && forall p :: 0 <= p < |side| ==> 1 <= side[p] <= |page|
    requires AboveAll(Vector(page), c.above, side, k)
    ensures Good(c, Select(page, side)) && Under(c, k, Select(page, side))
  {
    hide Vector, Select, GoodEntry;
    var s := Select(page, side);
    forall p | 0 <= p < |s| ensures c.above(k, s[p].key) {
      assert Vector(page)[side[p]] == s[p].key;
    }
  }

  /** `gistSplit`: split, and split again what still does not fit. */
  ghost function SplitPage<K(!new), V(!new)>(c: OpClass<K, V>, page: seq<Tree<K, V>>): Option<seq<Tree<K, V>>>
    requires Sound(c) && Good(c, page) && |page| >= 2
    decreases |page|, 1
  {
    if c.pick(Vector(page)).None? then None
    else
      PickedSides(c, page);
      var p := c.pick(Vector(page)).value;
      SelectGood(c, page, p.left, p.l);
      SelectGood(c, page, p.right, p.r);
      Both(Part(c, Select(page, p.left), p.l), Part(c, Select(page, p.right), p.r))
  }

  ghost function Both<T>(x: Option<seq<T>>, y: Option<seq<T>>): Option<seq<T>> {
    if x.Some? && y.Some? then Some(x.value + y.value) else None
  }

  ghost function Part<K(!new), V(!new)>(c: OpClass<K, V>, side: seq<Tree<K, V>>, k: K): Option<seq<Tree<K, V>>>
    requires Sound(c) && Good(c, side)
    decreases |side|, 2
  {
    if c.space.fits(Keys(side)) then Some([Node(k, side)]) else SplitPage(c, side)
  }

  /** Pages with proper keys, holding the given rows. */
  ghost predicate Pieces<K, V>(c: OpClass<K, V>, parts: Option<seq<Tree<K, V>>>, rows: multiset<V>) {
    parts.Some? ==> parts.value != [] && Good(c, parts.value) && multiset(Rows(parts.value)) == rows
  }

  /** A split loses no row and adds none, and leaves pages with proper keys. */
  lemma {:induction false} SplitPageOk<K(!new), V(!new)>(c: OpClass<K, V>, page: seq<Tree<K, V>>)
    requires Sound(c) && Good(c, page) && |page| >= 2
    ensures Pieces(c, SplitPage(c, page), multiset(Rows(page)))
    decreases |page|, 1
  {
    hide Good, Under, Sound, Rows, Select, Vector, Part, Pieces, Both, Offsets, AboveAll;
    if c.pick(Vector(page)).None? {
      NoPieces(c, multiset(Rows(page)));
    } else {
      PickedSides(c, page);
      var p := c.pick(Vector(page)).value;
      SelectGood(c, page, p.left, p.l);
      SelectGood(c, page, p.right, p.r);
      var l, r := Select(page, p.left), Select(page, p.right);
      PartOk(c, l, p.l);
      PartOk(c, r, p.r);
      SidesAll(page, p.left, p.right);
      BothPieces(c, Part(c, l, p.l), Part(c, r, p.r), multiset(Rows(l)), multiset(Rows(r)));
    }
  }

  lemma {:induction false} NoPieces<K, V>(c: OpClass<K, V>, rows: multiset<V>)
    ensures Pieces(c, None, rows)
  {
  }

  lemma {:induction false} BothPieces<K, V>(
    c: OpClass<K, V>, x: Option<seq<Tree<K, V>>>, y: Option<seq<Tree<K, V>>>, a: multiset<V>, b: multiset<V>)
    requires Pieces(c, x, a) && Pieces(c, y, b)
    ensures Pieces(c, Both(x, y), a + b)
  {
    hide Good, Rows;
    if x.Some? && y.Some? {
      RowsAppend(x.value, y.value);
      GoodAppend(c, x.value, y.value);
    }
  }

  lemma {:induction false} SidesAll<K, V>(page: seq<Tree<K, V>>, left: seq<int>, right: seq<int>)
    requires multiset(left + right) == multiset(Offsets(|page|))
    requires forall p :: 0 <= p < |left| ==> 1 <= left[p] <= |page|
    requires forall p :: 0 <= p < |right| ==> 1 <= right[p] <= |page|
    ensures multiset(Rows(Select(page, left))) + multiset(Rows(Select(page, right))) == multiset(Rows(page))
  {
    hide Rows, Select, Offsets;
    RowsAppend(Select(page, left), Select(page, right));
    SelectAppend(page, left, right);
    SelectAll(page, left + right);
  }

  lemma {:induction false} PartOk<K(!new), V(!new)>(c: OpClass<K, V>, side: seq<Tree<K, V>>, k: K)
    requires Sound(c) && Good(c, side) && Under(c, k, side) && c.valid(k) && side != []
    ensures Pieces(c, Part(c, side, k), multiset(Rows(side)))
    decreases |side|, 2
  {
    if c.space.fits(Keys(side)) {
      RowsOne(Node(k, side));
    } else {
      SplitPageOk(c, side);
    }
  }

  lemma {:induction false} GoodAppend<K, V>(c: OpClass<K, V>, a: seq<Tree<K, V>>, b: seq<Tree<K, V>>)
    requires Good(c, a) && Good(c, b)
    ensures Good(c, a + b)
  {
    hide GoodEntry;
  }

  lemma {:induction false} SelectAppend<K, V>(page: seq<Tree<K, V>>, a: seq<int>, b: seq<int>)
    requires forall p :: 0 <= p < |a| ==> 1 <= a[p] <= |page|
    requires forall p :: 0 <= p < |b| ==> 1 <= b[p] <= |page|
    ensures Select(page, a + b) == Select(page, a) + Select(page, b)
  {
    hide Select;
  }

  /** Any arrangement of the whole page holds the same rows. */
  lemma {:induction false} SelectAll<K, V>(page: seq<Tree<K, V>>, order: seq<int>)
    requires multiset(order) == multiset(Offsets(|page|))
    requires forall p :: 0 <= p < |order| ==> 1 <= order[p] <= |page|
    ensures multiset(Rows(Select(page, order))) == multiset(Rows(page))
    decreases |page|
  {
    hide Rows, Select, Offsets;
    var n := |page|;
    if n == 0 {
      assert |order| == |multiset(order)| == |multiset(Offsets(0))| == 0;
      assert Select(page, order) == page;
    } else {
      SeedsDealt(order, n, n);
      var j :| 0 <= j < |order| && order[j] == n;
      var a, b := order[..j], order[j + 1..];
      assert order == a + [n] + b;
      DropLast(a, b, n);
      forall p | 0 <= p < |a + b| ensures 1 <= (a + b)[p] <= n - 1 {
        OffsetBounds(a + b, n - 1, p);
      }
      SelectAll(page[..n - 1], a + b);
      SelectAround(page, a, b);
      assert page == page[..n - 1] + [page[n - 1]];
      RowsAppend(page[..n - 1], [page[n - 1]]);
    }
  }

  lemma {:induction false} DropLast(a: seq<int>, b: seq<int>, n: int)
    requires n > 0 && multiset(a + [n] + b) == multiset(Offsets(n))
    ensures multiset(a + b) == multiset(Offsets(n - 1))
  {
    SnocOffset(n);
    hide Offsets;
    var whole, less := multiset(Offsets(n)), multiset(Offsets(n - 1));
    assert whole == less + multiset{n};
    assert multiset(a + [n] + b) == multiset(a + b) + multiset{n} by { OneOut(a, b, n); }
    SameBut(multiset(a + b), less, n);
  }

  lemma {:induction false} OneOut(a: seq<int>, b: seq<int>, n: int)
    ensures multiset(a + [n] + b) == multiset(a + b) + multiset{n}
  {
  }

  lemma {:induction false} SameBut(x: multiset<int>, y: multiset<int>, n: int)
    requires x + multiset{n} == y + multiset{n}
    ensures x == y
  {
    assert x == x + multiset{n} - multiset{n} && y == y + multiset{n} - multiset{n};
  }

  lemma {:induction false} SelectAround<K, V>(page: seq<Tree<K, V>>, a: seq<int>, b: seq<int>)
    requires page != [] && forall p :: 0 <= p < |a + b| ==> 1 <= (a + b)[p] <= |page| - 1
    ensures forall p :: 0 <= p < |a + [|page|] + b| ==> 1 <= (a + [|page|] + b)[p] <= |page|
    ensures multiset(Rows(Select(page, a + [|page|] + b)))
         == multiset(Rows(Select(page[..|page| - 1], a + b))) + multiset(Rows([page[|page| - 1]]))
  {
    hide Rows, Select;
    var n := |page|;
    forall p | 0 <= p < |a| ensures 1 <= a[p] <= n - 1 { assert (a + b)[p] == a[p]; }
    forall p | 0 <= p < |b| ensures 1 <= b[p] <= n - 1 { assert (a + b)[|a| + p] == b[p]; }
    var x, y := Select(page[..n - 1], a), Select(page[..n - 1], b);
    SelectAppend(page[..n - 1], a, b);
    assert Select(page, a + [n] + b) == x + [page[n - 1]] + y;
    RowsAppend(x + [page[n - 1]], y);
    RowsAppend(x, [page[n - 1]]);
    RowsAppend(x, y);
  }

  // ----------------------------------------------- placing and adjusting

  /** What is left to do above a page: nothing, widen its key by add, or replace
      its entry by several; or a support function failed. */
  datatype Outcome<K, V> = Settled(page: seq<Tree<K, V>>)
                         | Grew(page: seq<Tree<K, V>>, add: K)
                         | Broke(parts: seq<Tree<K, V>>)
                         | Failed

  /** `gistplacetopage`: the new entries go behind what stays on the page. */
  ghost function PlaceToPage<K(!new), V(!new)>(
    c: OpClass<K, V>, stay: seq<Tree<K, V>>, news: seq<Tree<K, V>>): Outcome<K, V>
    requires Sound(c) && Good(c, stay) && Good(c, news) && news != []
  {
    GoodAppend(c, stay, news);
    if !c.space.room(Keys(stay), Keys(news)) then
      RoomForOne(c, stay, news);
      (match SplitPage(c, stay + news) case None => Failed case Some(parts) => Broke(parts))
    else
      match AddedKey(c, news) case None => Failed case Some(k) => Grew(stay + news, k)
  }

  /** What the key above must take in. */
  ghost function AddedKey<K, V>(c: OpClass<K, V>, news: seq<Tree<K, V>>): Option<K>
    requires news != []
  {
    if |news| > 1 then c.unionAll(Keys(news)) else Some(news[0].key)
  }

  /** The rows that end up below, and what the keys above must know. */
  ghost predicate OutcomeOk<K(!new), V(!new)>(
    c: OpClass<K, V>, was: seq<Tree<K, V>>, o: Outcome<K, V>, rows: multiset<V>)
  {
    match o
    case Settled(page) =>
      page != [] && Good(c, page) && multiset(Rows(page)) == rows
      && forall k :: Under(c, k, was) ==> Under(c, k, page)
    case Grew(page, add) =>
      page != [] && Good(c, page) && multiset(Rows(page)) == rows && c.valid(add)
      && forall k :: Under(c, k, was) && c.above(k, add) ==> Under(c, k, page)
    case Broke(parts) =>
      parts != [] && Good(c, parts) && multiset(Rows(parts)) == rows
    case Failed => true
  }

  lemma {:induction false} PlaceOk<K(!new), V(!new)>(
    c: OpClass<K, V>, was: seq<Tree<K, V>>, stay: seq<Tree<K, V>>, news: seq<Tree<K, V>>, rows: multiset<V>)
    requires Sound(c) && Good(c, stay) && Good(c, news) && news != []
    requires forall k :: Under(c, k, was) ==> Under(c, k, stay)
    requires multiset(Rows(stay)) + multiset(Rows(news)) == rows
    ensures OutcomeOk(c, was, PlaceToPage(c, stay, news), rows)
  {
    hide Good, Sound, Rows;
    GoodAppend(c, stay, news);
    RowsAppend(stay, news);
    if !c.space.room(Keys(stay), Keys(news)) {
      RoomForOne(c, stay, news);
      SplitPageOk(c, stay + news);
    } else {
      var add := AddedKey(c, news);
      if add.Some? {
        NewKeys(c, news, add.value);
        forall k | Under(c, k, was) && c.above(k, add.value) ensures Under(c, k, stay + news) {
          assert Under(c, k, news);
        }
      }
    }
  }

  lemma {:induction false} FitsOne<K(!new), V(!new)>(c: OpClass<K, V>, page: seq<Tree<K, V>>)
    requires Sound(c) && !c.space.fits(Keys(page))
    ensures |page| >= 2
  {
  }

  lemma {:induction false} RoomForOne<K(!new), V(!new)>(
    c: OpClass<K, V>, stay: seq<Tree<K, V>>, news: seq<Tree<K, V>>)
    requires Sound(c) && news != [] && !c.space.room(Keys(stay), Keys(news))
    ensures |stay + news| >= 2
  {
    assert |news| == 1 ==> Keys(news) == [news[0].key];
    assert stay == [] ==> Keys(stay) == [];
  }

  lemma {:induction false} NewKeys<K(!new), V(!new)>(c: OpClass<K, V>, news: seq<Tree<K, V>>, add: K)
    requires Sound(c) && Good(c, news) && news != []
    requires AddedKey(c, news) == Some(add)
    ensures c.valid(add) && forall k :: c.above(k, add) ==> Under(c, k, news)
  {
    VectorValid(c, news);
    if |news| > 1 {
      assert Unites(c.valid, c.above, Keys(news), c.unionAll(Keys(news)));
      forall k | c.above(k, add) ensures Under(c, k, news) {
        forall j | 0 <= j < |news| ensures c.above(k, news[j].key) {
          assert c.above(add, Keys(news)[j]);
        }
      }
    }
  }

  ghost function Without<T>(s: seq<T>, i: int): seq<T>
    requires 0 <= i < |s|
  {
    s[..i] + s[i + 1..]
  }

  /** One insertion along a path (`gistfindleaf` down, `gistmakedeal` up).  The
      descent ends where the path does. */
  ghost function Insert<K(!new), V(!new)>(
    c: OpClass<K, V>, page: seq<Tree<K, V>>, e: Tree<K, V>, path: seq<int>): Outcome<K, V>
    requires Sound(c) && Good(c, page) && Good(c, [e])
    ensures OutcomeOk(c, page, Insert(c, page, e, path), multiset(Rows(page)) + multiset(Below(e)))
    decreases |path|
  {
    if path == [] || !(0 <= path[0] < |page|) || page[path[0]].Leaf? then
      RowsOne(e);
      PlaceOk(c, page, page, [e], multiset(Rows(page)) + multiset(Below(e)));
      PlaceToPage(c, page, [e])
    else
      var i := path[0];
      var t := page[i];
      assert GoodEntry(c, t);
      Replace(c, page, i, Insert(c, t.kids, e, path[1..]), multiset(Below(e)))
  }

  /** The entry i of a page after the insertion below it. */
  ghost function Replace<K(!new), V(!new)>(
    c: OpClass<K, V>, page: seq<Tree<K, V>>, i: int, o: Outcome<K, V>, added: multiset<V>): Outcome<K, V>
    requires Sound(c) && Good(c, page) && 0 <= i < |page| && page[i].Node?
    requires OutcomeOk(c, page[i].kids, o, multiset(Rows(page[i].kids)) + added)
    ensures OutcomeOk(c, page, Replace(c, page, i, o, added), multiset(Rows(page)) + added)
  {
    var k := page[i].key;
    match o
    case Settled(kids) =>
      SettleOk(c, page, i, kids, added);
      Settled(page[i := Node(k, kids)])
    case Grew(kids, add) =>
      assert GoodEntry(c, page[i]);
      assert Adjusts(c.valid, c.above, k, add, c.adjust(k, add));
      (match c.adjust(k, add)
       case Enough =>
         SettleOk(c, page, i, kids, added);
         Settled(page[i := Node(k, kids)])
       case Raised(k') =>
         RaiseOk(c, page, i, kids, k', added);
         PlaceToPage(c, Without(page, i), [Node(k', kids)])
       case NotRaised => Failed)
    case Broke(parts) =>
      ReplaceOk(c, page, i, parts, added);
      PlaceToPage(c, Without(page, i), parts)
    case Failed => Failed
  }

  lemma {:induction false} SettleOk<K(!new), V(!new)>(
    c: OpClass<K, V>, page: seq<Tree<K, V>>, i: int, kids: seq<Tree<K, V>>, added: multiset<V>)
    requires Good(c, page) && 0 <= i < |page| && page[i].Node? && kids != []
    requires Good(c, kids) && Under(c, page[i].key, kids)
    requires multiset(Rows(kids)) == multiset(Rows(page[i].kids)) + added
    ensures OutcomeOk(c, page, Settled(page[i := Node(page[i].key, kids)]), multiset(Rows(page)) + added)
  {
    hide Rows;
    var k := page[i].key;
    var page' := page[i := Node(k, kids)];
    assert GoodEntry(c, page[i]);
    assert GoodEntry(c, page'[i]);
    assert page' == page[..i] + [Node(k, kids)] + page[i + 1..];
    assert page == page[..i] + [page[i]] + page[i + 1..];
    RowsAround(page[..i], Node(k, kids), page[i + 1..]);
    RowsAround(page[..i], page[i], page[i + 1..]);
  }

  lemma {:induction false} RowsAround<K, V>(a: seq<Tree<K, V>>, t: Tree<K, V>, b: seq<Tree<K, V>>)
    ensures multiset(Rows(a + [t] + b)) == multiset(Rows(a + b)) + multiset(Below(t))
  {
    RowsAppend(a + [t], b);
    RowsAppend(a, [t]);
    RowsAppend(a, b);
    RowsOne(t);
  }

  lemma {:induction false} ReplaceOk<K(!new), V(!new)>(
    c: OpClass<K, V>, page: seq<Tree<K, V>>, i: int, parts: seq<Tree<K, V>>, added: multiset<V>)
    requires Sound(c) && Good(c, page) && 0 <= i < |page| && page[i].Node?
    requires parts != [] && Good(c, parts) && multiset(Rows(parts)) == multiset(Rows(page[i].kids)) + added
    ensures Good(c, Without(page, i))
    ensures OutcomeOk(c, page, PlaceToPage(c, Without(page, i), parts), multiset(Rows(page)) + added)
  {
    hide Sound, Rows, PlaceToPage, OutcomeOk, GoodEntry;
    assert page == page[..i] + [page[i]] + page[i + 1..];
    RowsAround(page[..i], page[i], page[i + 1..]);
    PlaceOk(c, page, Without(page, i), parts, multiset(Rows(page)) + added);
  }

  lemma {:induction false} RaiseOk<K(!new), V(!new)>(
    c: OpClass<K, V>, page: seq<Tree<K, V>>, i: int, kids: seq<Tree<K, V>>, k': K, added: multiset<V>)
    requires Sound(c) && Good(c, page) && 0 <= i < |page| && page[i].Node?
    requires Good(c, kids) && Under(c, k', kids) && c.valid(k') && kids != []
    requires multiset(Rows(kids)) == multiset(Rows(page[i].kids)) + added
    ensures Good(c, Without(page, i)) && Good(c, [Node(k', kids)])
    ensures OutcomeOk(c, page, PlaceToPage(c, Without(page, i), [Node(k', kids)]), multiset(Rows(page)) + added)
  {
    RowsOne(Node(k', kids));
    ReplaceOk(c, page, i, [Node(k', kids)], added);
  }

  // --------------------------------------------------------------- runs

  datatype Insertion<K, V> = Insertion(key: K, row: V, path: seq<int>)

  ghost function Inserted<K, V>(ops: seq<Insertion<K, V>>): seq<V> {
    if ops == [] then [] else Inserted(ops[..|ops| - 1]) + [ops[|ops| - 1].row]
  }

  ghost predicate Proper<K, V>(c: OpClass<K, V>, ops: seq<Insertion<K, V>>) {
    forall i :: 0 <= i < |ops| ==> c.isKey(ops[i].key, ops[i].row)
  }

  /** The root page after an insertion; `gistnewroot` when it was split. */
  ghost function InsertRoot<K(!new), V(!new)>(
    c: OpClass<K, V>, root: seq<Tree<K, V>>, op: Insertion<K, V>): (r: Option<seq<Tree<K, V>>>)
    requires Sound(c) && Good(c, root) && c.isKey(op.key, op.row)
    ensures r.Some? ==> Good(c, r.value) && multiset(Rows(r.value)) == multiset(Rows(root)) + multiset{op.row}
  {
    var e := Leaf(op.key, op.row);
    assert GoodEntry(c, e);
    assert multiset(Below(e)) == multiset{op.row};
    var o := Insert(c, root, e, op.path);
    match o
    case Settled(page) => Some(page)
    case Grew(page, _) => Some(page)
    case Broke(parts) => Some(parts)
    case Failed => None
  }

  /** The index after a run of insertions into an empty one, unless one fails: well
      keyed, and holding the inserted rows, each as often as it was inserted. */
  ghost function After<K(!new), V(!new)>(c: OpClass<K, V>, ops: seq<Insertion<K, V>>): (root: Option<seq<Tree<K, V>>>)
    requires Sound(c) && Proper(c, ops)
    ensures root.Some? ==> Good(c, root.value)
    ensures root.Some? ==> multiset(Rows(root.value)) == multiset(Inserted(ops))
  {
    if ops == [] then Some([])
    else
      match After(c, ops[..|ops| - 1])
      case None => None
      case Some(was) => InsertRoot(c, was, ops[|ops| - 1])
  }

  lemma {:induction false} OneEntry<K(!new), V(!new)>(c: OpClass<K, V>, leaf: Tree<K, V>)
    requires Sound(c) && Good(c, [leaf]) && leaf.Leaf?
    ensures Insert(c, [], leaf, []) == Grew([leaf], leaf.key)
  {
    assert [] + [leaf] == [leaf];
    var none: seq<Tree<K, V>> := [];
    assert Keys(none) == [] && Keys([leaf]) == [leaf.key];
  }

  /** After one insertion the root is a leaf page of one entry. */
  lemma {:induction false} OneRun<K(!new), V(!new)>(c: OpClass<K, V>, k: K, v: V)
    requires Sound(c) && c.isKey(k, v)
    ensures var ops := [Insertion(k, v, [])];
      && Proper(c, ops) && After(c, ops) == Some([Leaf(k, v)]) && Inserted(ops) == [v]
  {
    var op := Insertion(k, v, []);
    assert [op][..0] == [];
    assert GoodEntry(c, Leaf(k, v));
    OneEntry(c, Leaf(k, v));
  }

  /** An insertion into the root page. */
  lemma {:induction false} NextRun<K(!new), V(!new)>(
    c: OpClass<K, V>, ops: seq<Insertion<K, V>>, root: seq<Tree<K, V>>, k: K, v: V)
    requires Sound(c) && Proper(c, ops) && c.isKey(k, v) && After(c, ops) == Some(root)
    ensures Proper(c, ops + [Insertion(k, v, [])]) && Good(c, [Leaf(k, v)])
    ensures After(c, ops + [Insertion(k, v, [])])
         == match PlaceToPage(c, root, [Leaf(k, v)])
            case Settled(page) => Some(page)
            case Grew(page, _) => Some(page)
            case Broke(parts) => Some(parts)
            case Failed => None
  {
    hide Sound, Good, PlaceToPage, OutcomeOk, Rows, Below, Inserted;
    var op := Insertion(k, v, []);
    var all := ops + [op];
    assert all[..|ops|] == ops && all[|all| - 1] == op;
    LeafGood(c, op);
    assert After(c, all) == InsertRoot(c, root, op);
    assert Insert(c, root, Leaf(k, v), []) == PlaceToPage(c, root, [Leaf(k, v)]);
  }

  /** The pages a split yields. */
  lemma {:induction false} SplitNodes<K(!new), V(!new)>(c: OpClass<K, V>, page: seq<Tree<K, V>>)
    requires Sound(c) && Good(c, page) && |page| >= 2 && SplitPage(c, page).Some?
    ensures forall t :: t in SplitPage(c, page).value ==> t.Node?
    decreases |page|, 1
  {
    hide Good, Sound, Select, Vector;
    PickedSides(c, page);
    var p := c.pick(Vector(page)).value;
    SelectGood(c, page, p.left, p.l);
    SelectGood(c, page, p.right, p.r);
    PartNodes(c, Select(page, p.left), p.l);
    PartNodes(c, Select(page, p.right), p.r);
  }

  lemma {:induction false} PartNodes<K(!new), V(!new)>(c: OpClass<K, V>, side: seq<Tree<K, V>>, k: K)
    requires Sound(c) && Good(c, side) && Part(c, side, k).Some?
    ensures forall t :: t in Part(c, side, k).value ==> t.Node?
    decreases |side|, 2
  {
    hide Good, Sound;
    if !c.space.fits(Keys(side)) {
      FitsOne(c, side);
      SplitNodes(c, side);
    }
  }

  /** There are no more entries than rows below them. */
  lemma {:induction false} EntriesRows<K, V>(c: OpClass<K, V>, page: seq<Tree<K, V>>)
    requires Good(c, page)
    ensures |page| <= |Rows(page)|
    decreases page
  {
    if page != [] {
      assert GoodEntry(c, page[0]);
      assert Good(c, page[1..]);
      if page[0].Node? {
        EntriesRows(c, page[0].kids);
      }
      EntriesRows(c, page[1..]);
    }
  }

  lemma {:induction false} KidsRows<K, V>(page: seq<Tree<K, V>>, i: nat)
    requires i < |page| && page[i].Node?
    ensures |Rows(page[i].kids)| <= |Rows(page)|
  {
    if i > 0 {
      KidsRows(page[1..], i - 1);
    }
  }

  /** The descent goes on below the page. */
  ghost predicate Descends<K, V>(page: seq<Tree<K, V>>, path: seq<int>) {
    path != [] && 0 <= path[0] < |page| && page[path[0]].Node?
  }

  /** The insertion splits no page into more than n. */
  ghost predicate Narrow<K(!new), V(!new)>(
    c: OpClass<K, V>, page: seq<Tree<K, V>>, e: Tree<K, V>, path: seq<int>, n: nat)
    requires Sound(c) && Good(c, page) && Good(c, [e])
    decreases |path|
  {
    var o := Insert(c, page, e, path);
    && (o.Broke? ==> |o.parts| <= n)
    && (Descends(page, path) ==>
          assert GoodEntry(c, page[path[0]]);
          Narrow(c, page[path[0]].kids, e, path[1..], n))
  }

  /** No insertion of the run does. */
  ghost predicate NarrowRun<K(!new), V(!new)>(c: OpClass<K, V>, ops: seq<Insertion<K, V>>, n: nat)
    requires Sound(c) && Proper(c, ops)
    decreases |ops|
  {
    ops != [] ==>
      var m := |ops| - 1;
      LeafGood(c, ops[m]);
      && NarrowRun(c, ops[..m], n)
      && (After(c, ops[..m]).Some? ==>
            Narrow(c, After(c, ops[..m]).value, Leaf(ops[m].key, ops[m].row), ops[m].path, n))
  }

  /** No page is split into more than there are rows. */
  lemma {:induction false} RowsNarrow<K(!new), V(!new)>(
    c: OpClass<K, V>, page: seq<Tree<K, V>>, e: Tree<K, V>, path: seq<int>, n: nat)
    requires Sound(c) && Good(c, page) && Good(c, [e]) && e.Leaf? && |Rows(page)| < n
    ensures Narrow(c, page, e, path, n)
    decreases |path|
  {
    hide Sound, Insert, Rows, Good;
    var o := Insert(c, page, e, path);
    if o.Broke? {
      EntriesRows(c, o.parts);
      assert |multiset(Rows(o.parts))| == |Rows(o.parts)|;
    }
    if Descends(page, path) {
      GoodKids(c, page, path[0]);
      KidsRows(page, path[0]);
      RowsNarrow(c, page[path[0]].kids, e, path[1..], n);
    }
  }

  lemma {:induction false} GoodKids<K, V>(c: OpClass<K, V>, page: seq<Tree<K, V>>, i: int)
    requires Good(c, page) && 0 <= i < |page| && page[i].Node?
    ensures Good(c, page[i].kids) && GoodEntry(c, page[i])
  {
    assert GoodEntry(c, page[i]);
  }

  lemma {:induction false} RunNarrow<K(!new), V(!new)>(c: OpClass<K, V>, ops: seq<Insertion<K, V>>, n: nat)
    requires Sound(c) && Proper(c, ops) && |ops| <= n
    ensures NarrowRun(c, ops, n)
    decreases |ops|
  {
    hide Sound, Good, Rows, Narrow, After;
    if ops != [] {
      var m := |ops| - 1;
      RunNarrow(c, ops[..m], n);
      LeafGood(c, ops[m]);
      if After(c, ops[..m]).Some? {
        var root := After(c, ops[..m]).value;
        InsertedSize(ops[..m]);
        assert |Rows(root)| == |multiset(Rows(root))| == |multiset(Inserted(ops[..m]))| == m;
        RowsNarrow(c, root, Leaf(ops[m].key, ops[m].row), ops[m].path, n);
      }
    }
  }

  /** Where no support function fails on so many keys as a page is split into, no
      run does. */
  lemma {:induction false} TotalRuns<K(!new), V(!new)>(c: OpClass<K, V>, ops: seq<Insertion<K, V>>, n: nat)
    requires Sound(c) && Total(c, n) && Proper(c, ops) && NarrowRun(c, ops, n)
    ensures After(c, ops).Some?
    decreases |ops|
  {
    hide Sound, Total, Good, Rows, Narrow;
    if ops != [] {
      var m := |ops| - 1;
      TotalRuns(c, ops[..m], n);
      LeafGood(c, ops[m]);
      TotalInsert(c, After(c, ops[..m]).value, Leaf(ops[m].key, ops[m].row), ops[m].path, n);
    }
  }

  lemma {:induction false} InsertedSize<K, V>(ops: seq<Insertion<K, V>>)
    ensures |Inserted(ops)| == |ops|
  {
    if ops != [] {
      InsertedSize(ops[..|ops| - 1]);
    }
  }

  lemma {:induction false} LeafGood<K(!new), V(!new)>(c: OpClass<K, V>, op: Insertion<K, V>)
    requires Sound(c) && c.isKey(op.key, op.row)
    ensures Good(c, [Leaf(op.key, op.row)])
  {
  }

  lemma {:induction false} TotalInsert<K(!new), V(!new)>(
    c: OpClass<K, V>, page: seq<Tree<K, V>>, e: Tree<K, V>, path: seq<int>, n: nat)
    requires Sound(c) && Total(c, n) && Good(c, page) && Good(c, [e]) && Narrow(c, page, e, path, n)
    ensures !Insert(c, page, e, path).Failed?
    decreases |path|
  {
    hide Sound, Total, OutcomeOk;
    if path == [] || !(0 <= path[0] < |page|) || page[path[0]].Leaf? {
      TotalPlace(c, page, [e], n);
    } else {
      var i := path[0];
      assert GoodEntry(c, page[i]);
      TotalInsert(c, page[i].kids, e, path[1..], n);
      TotalReplace(c, page, i, Insert(c, page[i].kids, e, path[1..]), multiset(Below(e)), n);
    }
  }

  lemma {:induction false} TotalReplace<K(!new), V(!new)>(
    c: OpClass<K, V>, page: seq<Tree<K, V>>, i: int, o: Outcome<K, V>, added: multiset<V>, n: nat)
    requires Sound(c) && Total(c, n) && Good(c, page) && 0 <= i < |page| && page[i].Node? && !o.Failed?
    requires OutcomeOk(c, page[i].kids, o, multiset(Rows(page[i].kids)) + added)
    requires o.Broke? ==> |o.parts| <= n
    ensures !Replace(c, page, i, o, added).Failed?
  {
    hide Rows;
    var k := page[i].key;
    assert GoodEntry(c, page[i]);
    match o
    case Settled(_) =>
    case Grew(kids, add) =>
      assert Adjusts(c.valid, c.above, k, add, c.adjust(k, add));
      if c.adjust(k, add).Raised? {
        RaiseOk(c, page, i, kids, c.adjust(k, add).key, added);
        TotalPlace(c, Without(page, i), [Node(c.adjust(k, add).key, kids)], n);
      }
    case Broke(parts) =>
      ReplaceOk(c, page, i, parts, added);
      TotalPlace(c, Without(page, i), parts, n);
  }

  lemma {:induction false} TotalPlace<K(!new), V(!new)>(
    c: OpClass<K, V>, stay: seq<Tree<K, V>>, news: seq<Tree<K, V>>, n: nat)
    requires Sound(c) && Total(c, n) && Good(c, stay) && Good(c, news) && (|news| == 1 || 0 < |news| <= n)
    ensures !PlaceToPage(c, stay, news).Failed?
  {
    GoodAppend(c, stay, news);
    VectorValid(c, news);
    if !c.space.room(Keys(stay), Keys(news)) {
      RoomForOne(c, stay, news);
      TotalSplit(c, stay + news, n);
    }
  }

  lemma {:induction false} TotalSplit<K(!new), V(!new)>(c: OpClass<K, V>, page: seq<Tree<K, V>>, n: nat)
    requires Sound(c) && Total(c, n) && Good(c, page) && |page| >= 2
    ensures SplitPage(c, page).Some?
    decreases |page|
  {
    hide Good, Vector, Select, Sound;
    VectorValid(c, page);
    PickedSides(c, page);
    var p := c.pick(Vector(page)).value;
    SelectGood(c, page, p.left, p.l);
    SelectGood(c, page, p.right, p.r);
    TotalPart(c, Select(page, p.left), p.l, |page|, n);
    TotalPart(c, Select(page, p.right), p.r, |page|, n);
  }

  lemma {:induction false} TotalPart<K(!new), V(!new)>(
    c: OpClass<K, V>, side: seq<Tree<K, V>>, k: K, m: nat, n: nat)
    requires Sound(c) && Total(c, n) && Good(c, side) && |side| < m
    ensures Part(c, side, k).Some?
    decreases m, 0
  {
    hide Good, Total;
    if !c.space.fits(Keys(side)) {
      FitsOne(c, side);
      TotalSplit(c, side, n);
    }
  }

  // ------------------------------------------------- a class with few moves

  /** The key that takes in all keys, joined one after another. */
  ghost function JoinAll<K>(join: (K, K) -> Option<K>, ks: seq<K>): Option<K> {
    if ks == [] then None
    else if |ks| == 1 then Some(ks[0])
    else
      match JoinAll(join, ks[..|ks| - 1])
      case None => None
      case Some(k) => join(k, ks[|ks| - 1])
  }

  ghost function OffsetsFrom2(n: nat): (s: seq<int>)
    ensures |s| == n && forall i :: 0 <= i < n ==> s[i] == i + 2
  {
    if n == 0 then [] else OffsetsFrom2(n - 1) + [n + 1]
  }

  /** The first entry to the left, all others to the right. */
  ghost function FirstApart<K>(join: (K, K) -> Option<K>, ks: seq<K>): Option<Split<K>> {
    if |ks| < 3 then None
    else
      match JoinAll(join, ks[2..])
      case None => None
      case Some(r) => Some(Split([1], OffsetsFrom2(|ks| - 2), ks[1], r))
  }

  /** An operator class from nothing but a way to join two keys. */
  ghost function Plain<K, V>(
    valid: K -> bool, isKey: (K, V) -> bool, above: (K, K) -> bool, join: (K, K) -> Option<K>, space: Space<K>)
    : OpClass<K, V>
  {
    OpClass(valid, isKey, above,
      (a, b) => (match join(a, b) case None => NotRaised case Some(k) => if k == a then Enough else Raised(k)),
      ks => JoinAll(join, ks), ks => FirstApart(join, ks), space)
  }

  /** The joined key is above both; a key is above itself. */
  ghost predicate Joining<K(!new)>(valid: K -> bool, above: (K, K) -> bool, join: (K, K) -> Option<K>) {
    (forall a, b :: valid(a) && valid(b) && join(a, b).Some? ==>
      valid(join(a, b).value) && above(join(a, b).value, a) && above(join(a, b).value, b))
    && (forall a :: valid(a) ==> above(a, a))
    && (forall a, b, k :: above(a, b) && above(b, k) ==> above(a, k))
  }

  lemma {:induction false} JoinAllAbove<K(!new)>(
    valid: K -> bool, above: (K, K) -> bool, join: (K, K) -> Option<K>, ks: seq<K>)
    requires Joining(valid, above, join) && ks != [] && AllValid(valid, ks)
    ensures Unites(valid, above, ks, JoinAll(join, ks))
  {
    var n := |ks| - 1;
    if n > 0 {
      assert ks[..n] != [] && AllValid(valid, ks[..n]);
      JoinAllAbove(valid, above, join, ks[..n]);
    }
  }

  lemma {:induction false} FirstApartHalves<K(!new)>(
    valid: K -> bool, above: (K, K) -> bool, join: (K, K) -> Option<K>, ks: seq<K>)
    requires Joining(valid, above, join) && |ks| >= 3 && AllValid(valid, ks)
    ensures Halves(valid, above, ks, FirstApart(join, ks))
  {
    hide Offsets, OffsetsFrom2, JoinAll, Joining, Unites, AboveAll;
    var rest, right := ks[2..], OffsetsFrom2(|ks| - 2);
    assert AllValid(valid, rest);
    JoinAllAbove(valid, above, join, rest);
    AllOffsets(|ks| - 1, right);
    FirstAlone(valid, above, join, ks);
    if JoinAll(join, rest).Some? {
      RestAbove(valid, above, ks, JoinAll(join, rest).value, right);
    }
  }

  lemma {:induction false} FirstAlone<K(!new)>(
    valid: K -> bool, above: (K, K) -> bool, join: (K, K) -> Option<K>, ks: seq<K>)
    requires Joining(valid, above, join) && |ks| >= 3 && AllValid(valid, ks)
    ensures AboveAll(ks, above, [1], ks[1])
  {
  }

  lemma {:induction false} RestAbove<K>(valid: K -> bool, above: (K, K) -> bool, ks: seq<K>, k: K, right: seq<int>)
    requires |ks| >= 3 && Unites(valid, above, ks[2..], Some(k))
    requires |right| == |ks| - 2 && forall i :: 0 <= i < |right| ==> right[i] == i + 2
    ensures valid(k) && AboveAll(ks, above, right, k)
  {
    forall p | 0 <= p < |right| ensures above(k, ks[right[p]]) {
      assert ks[right[p]] == ks[2..][p];
    }
  }

  lemma {:induction false} AllOffsets(n: int, right: seq<int>)
    requires n >= 1 && |right| == n - 1 && forall i :: 0 <= i < |right| ==> right[i] == i + 2
    ensures multiset([1] + right) == multiset(Offsets(n))
  {
    assert [1] + right == Offsets(n);
  }

  lemma {:induction false} PlainSupported<K(!new), V>(
    valid: K -> bool, isKey: (K, V) -> bool, above: (K, K) -> bool, join: (K, K) -> Option<K>, space: Space<K>)
    requires Joining(valid, above, join) && Roomy(space)
    ensures Supported(Plain(valid, isKey, above, join, space))
  {
    hide Unites, Halves;
    forall ks | ks != [] && AllValid(valid, ks) ensures Unites(valid, above, ks, JoinAll(join, ks)) {
      JoinAllAbove(valid, above, join, ks);
    }
    forall ks | |ks| >= 3 && AllValid(valid, ks) ensures Halves(valid, above, ks, FirstApart(join, ks)) {
      FirstApartHalves(valid, above, join, ks);
    }
  }

  lemma {:induction false} JoinAllTotal<K(!new)>(
    valid: K -> bool, above: (K, K) -> bool, join: (K, K) -> Option<K>, ks: seq<K>)
    requires Joining(valid, above, join) && ks != [] && AllValid(valid, ks)
    requires forall a, b :: valid(a) && valid(b) ==> join(a, b).Some?
    ensures JoinAll(join, ks).Some?
  {
    var n := |ks| - 1;
    if n > 0 {
      assert ks[..n] != [] && AllValid(valid, ks[..n]);
      JoinAllTotal(valid, above, join, ks[..n]);
      JoinAllAbove(valid, above, join, ks[..n]);
    }
  }

  lemma {:induction false} PlainTotal<K(!new), V>(
    valid: K -> bool, isKey: (K, V) -> bool, above: (K, K) -> bool, join: (K, K) -> Option<K>, space: Space<K>, n: nat)
    requires Joining(valid, above, join) && forall a, b :: valid(a) && valid(b) ==> join(a, b).Some?
    ensures Total(Plain(valid, isKey, above, join, space), n)
  {
    forall ks | ks != [] && AllValid(valid, ks) ensures JoinAll(join, ks).Some? {
      JoinAllTotal(valid, above, join, ks);
    }
    forall ks | |ks| >= 3 && AllValid(valid, ks) ensures FirstApart(join, ks).Some? {
      assert AllValid(valid, ks[2..]);
      JoinAllTotal(valid, above, join, ks[2..]);
    }
  }

  // --------------------------------------------------------------- scans

  /** How many pages a scan can visit from here. */
  ghost function Pages<K, V>(page: seq<Tree<K, V>>): nat
    decreases page
  {
    1 + PagesBelow(page)
  }

  ghost function PagesBelow<K, V>(page: seq<Tree<K, V>>): nat
    decreases page, 0
  {
    if page == [] then 0
    else (if page[0].Node? then 1 + PagesBelow(page[0].kids) else 0) + PagesBelow(page[1..])
  }

  ghost function StackPages<K, V>(stack: seq<seq<Tree<K, V>>>): nat {
    if stack == [] then 0 else Pages(stack[0]) + StackPages(stack[1..])
  }

  ghost function SearchStack<K, V>(stack: seq<seq<Tree<K, V>>>, leaf: K -> bool, inner: K -> bool): seq<V> {
    if stack == [] then [] else Search(stack[0], leaf, inner) + SearchStack(stack[1..], leaf, inner)
  }

  /** `gistnext`, collecting all: pages wait on a stack, and an entry whose key is
      consistent is returned from a leaf and pushed from an inner page. */
  method Scan<K, V>(root: seq<Tree<K, V>>, leaf: K -> bool, inner: K -> bool) returns (found: seq<V>)
    ensures multiset(found) == multiset(Search(root, leaf, inner))
  {
    found := [];
    var stack := [root];
    assert stack[1..] == [];
    while stack != []
      invariant multiset(found) + multiset(SearchStack(stack, leaf, inner)) == multiset(Search(root, leaf, inner))
      decreases StackPages(stack)
    {
      var page := stack[0];
      var hits;
      hits, stack := ScanPage(page, stack[1..], leaf, inner);
      found := found + hits;
    }
  }

  method ScanPage<K, V>(page: seq<Tree<K, V>>, stack: seq<seq<Tree<K, V>>>, leaf: K -> bool, inner: K -> bool)
    returns (hits: seq<V>, next: seq<seq<Tree<K, V>>>)
    ensures multiset(hits) + multiset(SearchStack(next, leaf, inner))
         == multiset(Search(page, leaf, inner)) + multiset(SearchStack(stack, leaf, inner))
    ensures StackPages(next) <= StackPages(stack) + PagesBelow(page)
  {
    hits, next := [], stack;
    var n := 0;
    assert page[0..] == page;
    while n < |page|
      invariant 0 <= n <= |page|
      invariant multiset(hits) + multiset(SearchStack(next, leaf, inner)) + multiset(Search(page[n..], leaf, inner))
             == multiset(Search(page, leaf, inner)) + multiset(SearchStack(stack, leaf, inner))
      invariant StackPages(next) + PagesBelow(page[n..]) <= StackPages(stack) + PagesBelow(page)
    {
      assert page[n..][0] == page[n] && page[n..][1..] == page[n + 1..];
      match page[n] {
        case Leaf(k, v) =>
          if leaf(k) {
            hits := hits + [v];
          }
        case Node(k, kids) =>
          if inner(k) {
            Pushed(kids, next, leaf, inner);
            next := [kids] + next;
          }
      }
      n := n + 1;
    }
  }

  lemma {:induction false} Pushed<K, V>(
    kids: seq<Tree<K, V>>, stack: seq<seq<Tree<K, V>>>, leaf: K -> bool, inner: K -> bool)
    ensures SearchStack([kids] + stack, leaf, inner) == Search(kids, leaf, inner) + SearchStack(stack, leaf, inner)
    ensures StackPages([kids] + stack) == 1 + PagesBelow(kids) + StackPages(stack)
  {
    assert ([kids] + stack)[1..] == stack;
  }

  // ------------------------------------------------- scans after any run

  lemma {:induction false} FilterCount<V>(f: V -> bool, vs: seq<V>, v: V)
    ensures multiset(Filter(f, vs))[v] == if f(v) then multiset(vs)[v] else 0
  {
    if vs != [] {
      FilterCount(f, vs[1..], v);
      assert vs == [vs[0]] + vs[1..];
    }
  }

  lemma {:induction false} FilterBag<V(!new)>(f: V -> bool, a: seq<V>, b: seq<V>)
    requires multiset(a) == multiset(b)
    ensures multiset(Filter(f, a)) == multiset(Filter(f, b))
  {
    forall v ensures multiset(Filter(f, a))[v] == multiset(Filter(f, b))[v] {
      FilterCount(f, a, v);
      FilterCount(f, b, v);
    }
  }

  /** Two tests, one of which passes whatever the other does, select the same rows
      exactly when they agree on all. */
  lemma {:induction false} FilterBagIff<V(!new)>(f: V -> bool, g: V -> bool, vs: seq<V>)
    ensures (forall v :: v in vs ==> f(v) == g(v)) ==> multiset(Filter(f, vs)) == multiset(Filter(g, vs))
    ensures multiset(Filter(f, vs)) == multiset(Filter(g, vs)) ==> forall v :: v in vs ==> f(v) == g(v)
  {
    if forall v :: v in vs ==> f(v) == g(v) {
      forall v ensures multiset(Filter(f, vs))[v] == multiset(Filter(g, vs))[v] {
        FilterCount(f, vs, v);
        FilterCount(g, vs, v);
        assert v in vs <==> multiset(vs)[v] > 0;
      }
    }
    if multiset(Filter(f, vs)) == multiset(Filter(g, vs)) {
      forall v | v in vs ensures f(v) == g(v) {
        FilterCount(f, vs, v);
        FilterCount(g, vs, v);
        assert multiset(vs)[v] > 0;
      }
    }
  }

  /** Selecting again from what was found. */
  lemma {:induction false} FilterTwice<V(!new)>(f: V -> bool, g: V -> bool, vs: seq<V>, found: seq<V>)
    requires multiset(found) == multiset(Filter(f, vs))
    ensures (forall v :: g(v) ==> f(v)) ==> multiset(Filter(g, found)) == multiset(Filter(g, vs))
  {
    if forall v :: g(v) ==> f(v) {
      forall v ensures multiset(Filter(g, found))[v] == multiset(Filter(g, vs))[v] {
        FilterCount(g, found, v);
        FilterCount(f, vs, v);
        FilterCount(g, vs, v);
      }
    }
  }

  /** After any run of insertions, the index finds every inserted row that
      matches, each as often as it was inserted. */
  lemma {:induction false} RunNeverPruned<K(!new), V(!new)>(
    c: OpClass<K, V>, ops: seq<Insertion<K, V>>, covers: (K, V) -> bool,
    matches: V -> bool, leaf: K -> bool, inner: K -> bool)
    requires Sound(c) && Proper(c, ops) && Lawful(c.isKey, c.above, covers)
    requires After(c, ops).Some?
    requires forall k, v :: c.isKey(k, v) && matches(v) ==> leaf(k)
    requires forall k, v :: covers(k, v) && matches(v) ==> inner(k)
    ensures multiset(Filter(matches, Search(After(c, ops).value, leaf, inner)))
         == multiset(Filter(matches, Inserted(ops)))
  {
    var root := After(c, ops).value;
    GoodIsWellKeyed(c, root);
    NeverPruned(root, c.isKey, c.above, covers, matches, leaf, inner);
    FilterBag(matches, Rows(root), Inserted(ops));
  }

  /** Keys of a tree whose rows are all among vs. */
  lemma {:induction false} KeyedAmong<K, V>(
    ts: seq<Tree<K, V>>, isKey: (K, V) -> bool, above: (K, K) -> bool, among: (K, V) -> bool, vs: seq<V>)
    requires WellKeyed(ts, isKey, above) && forall v :: v in Rows(ts) ==> v in vs
    requires forall k, v :: isKey(k, v) && v in vs ==> among(k, v)
    ensures WellKeyed(ts, among, above)
    decreases ts
  {
    forall i | 0 <= i < |ts| ensures Keyed(ts[i], among, above) {
      BelowRows(ts, i);
      if ts[i].Node? {
        KeyedAmong(ts[i].kids, isKey, above, among, vs);
      }
    }
  }

  lemma {:induction false} BelowRows<K, V>(ts: seq<Tree<K, V>>, i: nat)
    requires i < |ts|
    ensures forall v :: v in Below(ts[i]) ==> v in Rows(ts)
  {
    hide Below;
    if i > 0 {
      BelowRows(ts[1..], i - 1);
    }
  }

  lemma {:induction false} SameMembers<V>(a: seq<V>, b: seq<V>)
    requires multiset(a) == multiset(b)
    ensures forall v :: v in a ==> v in b
  {
    forall v | v in a ensures v in b {
      assert v in multiset(a);
    }
  }

  /** With a leaf test that is exact on the inserted rows it finds nothing else. */
  lemma {:induction false} RunExact<K(!new), V(!new)>(
    c: OpClass<K, V>, ops: seq<Insertion<K, V>>, covers: (K, V) -> bool,
    matches: V -> bool, leaf: K -> bool, inner: K -> bool)
    requires Sound(c) && Proper(c, ops) && Lawful(c.isKey, c.above, covers)
    requires After(c, ops).Some?
    requires forall k, v :: c.isKey(k, v) && v in Inserted(ops) ==> leaf(k) == matches(v)
    requires forall k, v :: covers(k, v) && v in Inserted(ops) && matches(v) ==> inner(k)
    ensures multiset(Search(After(c, ops).value, leaf, inner)) == multiset(Filter(matches, Inserted(ops)))
  {
    var root := After(c, ops).value;
    var rows := Inserted(ops);
    GoodIsWellKeyed(c, root);
    SameMembers(Rows(root), rows);
    var among := (k, v) => c.isKey(k, v) && v in rows;
    KeyedAmong(root, c.isKey, c.above, among, rows);
    ExactSearch(root, among, c.above, (k, v) => covers(k, v) && v in rows, matches, leaf, inner);
    FilterBag(matches, Rows(root), Inserted(ops));
  }
}
