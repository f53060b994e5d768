/** Lists of unpacked pairs: sorting, dropping duplicate keys in place, and
    packing the result (`comparePairs`, `hstoreUniquePairs`, `hstorePairs`). */
module HstorePairs {
  import opened Common
  import opened Order
  import opened HstoreLayout
  import opened HstoreBuild

  datatype Result<T> = Ok(value: T) | TooBig

  /** The size of a pair in memory, on a 64-bit machine. */
  const PAIR_BYTES := 40

  /** The C struct: a null pair may still carry a value string. */
  datatype Pairs = Pairs(key: string, val: string, isnull: bool, needfree: bool) {
    function Abs(): Pair {
      Pair(key, if isnull then None else Some(val))
    }

    function Bytes(): nat {
      |key| + if isnull then 0 else |val|
    }
  }

  function AbsAll(ps: seq<Pairs>): (r: seq<Pair>)
    ensures |r| == |ps| && forall i :: 0 <= i < |ps| ==> r[i] == ps[i].Abs()
  {
    if ps == [] then [] else AbsAll(ps[..|ps| - 1]) + [ps[|ps| - 1].Abs()]
  }

  function ComparePairs(a: Pairs, b: Pairs): int {
    if |a.key| == |b.key| then
      var res := StrCmp(a.key, b.key);
      if res != 0 then res
      else if a.needfree == b.needfree then 0
      else if a.needfree then 1 else -1
    else if |a.key| > |b.key| then 1 else -1
  }

  ghost predicate Sorted(s: seq<Pairs>) {
    forall i, j :: 0 <= i < j < |s| ==> ComparePairs(s[i], s[j]) <= 0
  }

  // ------------------------------------------------- sorted permutation

  lemma {:induction false} CompareByKey(a: Pairs, b: Pairs)
    ensures KeyCmp(a.key, b.key) < 0 ==> ComparePairs(a, b) < 0
    ensures ComparePairs(a, b) <= 0 ==> KeyCmp(a.key, b.key) <= 0
    ensures ComparePairs(a, b) > 0 ==> ComparePairs(b, a) < 0
  {
    StrCmpTotal();
  }

  lemma {:induction false} CompareTrans(a: Pairs, b: Pairs, c: Pairs)
    requires ComparePairs(a, b) <= 0 && ComparePairs(b, c) <= 0
    ensures ComparePairs(a, c) <= 0
  {
    StrCmpTotal();
  }

  function Insert(p: Pairs, s: seq<Pairs>): seq<Pairs> {
    if s == [] || ComparePairs(p, s[0]) <= 0 then [p] + s else [s[0]] + Insert(p, s[1..])
  }

  lemma {:induction false} InsertAdds(p: Pairs, s: seq<Pairs>)
    ensures multiset(Insert(p, s)) == multiset(s) + multiset{p}
  {
    hide ComparePairs;
    if s != [] && ComparePairs(p, s[0]) > 0 {
      InsertAdds(p, s[1..]);
      assert s == [s[0]] + s[1..];
    }
  }

  lemma {:induction false} SortedCons(x: Pairs, t: seq<Pairs>)
    requires Sorted(t) && forall q :: q in multiset(t) ==> ComparePairs(x, q) <= 0
    ensures Sorted([x] + t)
  {
    hide ComparePairs;
    forall j | 0 <= j < |t| ensures ComparePairs(x, t[j]) <= 0 {
      assert t[j] in multiset(t);
    }
  }

  lemma {:induction false} SortedHead(s: seq<Pairs>, q: Pairs)
    requires Sorted(s) && s != [] && q in multiset(s)
    ensures ComparePairs(s[0], q) <= 0
  {
    var k :| 0 <= k < |s| && s[k] == q;
    hide ComparePairs;
    SelfCompare(q);
  }

  lemma {:induction false} InsertSorted(p: Pairs, s: seq<Pairs>)
    requires Sorted(s)
    ensures Sorted(Insert(p, s))
  {
    hide ComparePairs;
    if s == [] {
    } else if ComparePairs(p, s[0]) <= 0 {
      forall q | q in multiset(s) ensures ComparePairs(p, q) <= 0 {
        SortedHead(s, q);
        CompareTrans(p, s[0], q);
      }
      SortedCons(p, s);
    } else {
      var t := Insert(p, s[1..]);
      InsertSorted(p, s[1..]);
      InsertAdds(p, s[1..]);
      forall q | q in multiset(t) ensures ComparePairs(s[0], q) <= 0 {
        if q == p { CompareByKey(p, s[0]); } else { assert q in s; SortedHead(s, q); }
      }
      SortedCons(s[0], t);
    }
  }

  /** qsort: nothing is used of it but that it sorts by the callback. */
  method QSort(a: array<Pairs>)
    modifies a
    ensures Sorted(a[..]) && multiset(a[..]) == multiset(old(a[..]))
  {
    ghost var was := a[..];
    var s: seq<Pairs> := [];
    for i := 0 to a.Length
      invariant Sorted(s) && multiset(s) == multiset(was[..i]) && |s| == i && a[..] == was
    {
      InsertSorted(a[i], s);
      InsertAdds(a[i], s);
      s := Insert(a[i], s);
      assert was[..i + 1] == was[..i] + [was[i]];
      assert |multiset(s)| == |multiset(was[..i + 1])|;
    }
    assert was[..a.Length] == was;
    forall k | 0 <= k < a.Length {
      a[k] := s[k];
    }
    assert a[..] == s;
  }

  // -------------------------------------------------- dropping duplicates

  /** The first pair of every run of equal keys. */
  ghost function Firsts(s: seq<Pairs>): (r: seq<Pairs>)
    ensures |r| <= |s| && (r == [] <==> s == [])
  {
    if |s| <= 1 then s
    else
      var r := Firsts(s[..|s| - 1]);
      if s[|s| - 1].key == r[|r| - 1].key then r else r + [s[|s| - 1]]
  }

  ghost function BytesOf(ps: seq<Pairs>): nat {
    if ps == [] then 0 else BytesOf(ps[..|ps| - 1]) + ps[|ps| - 1].Bytes()
  }

  lemma {:induction false} BytesAreChars(ps: seq<Pairs>)
    ensures BytesOf(ps) == |Chars(AbsAll(ps))|
  {
    if ps != [] {
      BytesAreChars(ps[..|ps| - 1]);
      Snoc(AbsAll(ps[..|ps| - 1]), ps[|ps| - 1].Abs());
    }
  }

  /** Some pair of r has the key of q and does not come after it. */
  ghost predicate Stands(r: seq<Pairs>, q: Pairs) {
    exists j :: 0 <= j < |r| && r[j].key == q.key && ComparePairs(r[j], q) <= 0
  }

  /** What survives: members of the list, with all its keys, in strict order,
      each the least of its key in callback order. */
  ghost predicate Distilled(r: seq<Pairs>, s: seq<Pairs>) {
    (forall i :: 0 <= i < |r| ==> r[i] in s)
    && (forall i :: 0 <= i < |s| ==> Stands(r, s[i]))
    && StrictKeys(AbsAll(r))
  }

  /** Of pairs with one key, one that need not be freed is kept if there is any. */
  lemma {:induction false} DistilledKeepsShared(r: seq<Pairs>, s: seq<Pairs>, i: nat, j: nat)
    requires Distilled(r, s) && i < |r| && j < |s| && r[i].key == s[j].key && r[i].needfree
    ensures s[j].needfree
  {
    hide StrCmp, StrictKeys;
    assert Stands(r, s[j]);
    var k :| 0 <= k < |r| && r[k].key == s[j].key && ComparePairs(r[k], s[j]) <= 0;
    OneOfKey(r, i, k);
    SameText(s[j].key, s[j].key);
  }

  lemma {:induction false} OneOfKey(r: seq<Pairs>, i: nat, k: nat)
    requires StrictKeys(AbsAll(r)) && i < |r| && k < |r| && r[i].key == r[k].key
    ensures i == k
  {
    hide KeyCmp;
    KeyCmpTotal();
    var ps := AbsAll(r);
    assert ps[i].key == r[i].key && ps[k].key == r[k].key;
  }

  lemma {:induction false} FirstsSnoc(init: seq<Pairs>, p: Pairs)
    requires init != []
    ensures Firsts(init) != [] && Firsts(init + [p])
         == if p.key == Firsts(init)[|Firsts(init)| - 1].key then Firsts(init) else Firsts(init) + [p]
  {
    assert (init + [p])[..|init|] == init;
  }

  lemma {:induction false} FirstsDistil(s: seq<Pairs>)
    requires Sorted(s)
    ensures Distilled(Firsts(s), s)
    ensures s != [] ==> Firsts(s) != [] && Firsts(s)[|Firsts(s)| - 1].key == s[|s| - 1].key
  {
    hide ComparePairs, Distilled, Firsts, Sorted;
    if |s| <= 1 {
      DistilShort(s);
    } else {
      var n := |s| - 1;
      var init, p := s[..n], s[n];
      assert s == init + [p];
      SortedFront(s);
      FirstsDistil(init);
      FirstsSnoc(init, p);
      CompareByKey(init[n - 1], p);
      var r := Firsts(init);
      if p.key == r[|r| - 1].key {
        DistilSame(r, init, p);
      } else {
        DistilNew(r, init, p);
      }
    }
  }

  lemma {:induction false} SortedFront(s: seq<Pairs>)
    requires Sorted(s) && |s| > 1
    ensures Sorted(s[..|s| - 1]) && ComparePairs(s[|s| - 2], s[|s| - 1]) <= 0
  {
    hide ComparePairs;
  }

  lemma {:induction false} DistilShort(s: seq<Pairs>)
    requires |s| <= 1
    ensures Firsts(s) == s && Distilled(s, s)
  {
    if s != [] { SelfCompare(s[0]); }
  }

  lemma {:induction false} SelfCompare(p: Pairs)
    ensures ComparePairs(p, p) == 0
  {
    StrCmpTotal();
  }

  lemma {:induction false} DistilSame(r: seq<Pairs>, init: seq<Pairs>, p: Pairs)
    requires Sorted(init + [p]) && Distilled(r, init) && r != [] && p.key == r[|r| - 1].key
    ensures Distilled(r, init + [p])
  {
    hide ComparePairs, StrictKeys, AbsAll;
    var k :| 0 <= k < |init| && init[k] == r[|r| - 1];
    LastAfter(init, p, k);
    assert Stands(r, p);
  }

  lemma {:induction false} LastAfter(init: seq<Pairs>, p: Pairs, k: nat)
    requires Sorted(init + [p]) && k < |init|
    ensures ComparePairs(init[k], p) <= 0
  {
    hide ComparePairs;
    var s := init + [p];
    assert s[k] == init[k] && s[|init|] == p;
  }

  lemma {:induction false} DistilNew(r: seq<Pairs>, init: seq<Pairs>, p: Pairs)
    requires Distilled(r, init) && r != [] && p.key != r[|r| - 1].key && KeyCmp(r[|r| - 1].key, p.key) <= 0
    ensures Distilled(r + [p], init + [p])
  {
    hide ComparePairs, StrictKeys, AbsAll;
    var s, r' := init + [p], r + [p];
    StrictSnoc(r, p);
    SelfCompare(p);
    assert r'[|r|] == p;
    forall i | 0 <= i < |s| ensures Stands(r', s[i]) {
      if i < |init| { StandsStill(r, s[i], p); }
    }
  }

  lemma {:induction false} StrictSnoc(r: seq<Pairs>, p: Pairs)
    requires StrictKeys(AbsAll(r)) && r != [] && p.key != r[|r| - 1].key && KeyCmp(r[|r| - 1].key, p.key) <= 0
    ensures StrictKeys(AbsAll(r + [p]))
  {
    hide StrictKeys;
    KeyCmpTotal();
    StrictAppend(AbsAll(r), p.Abs());
    assert AbsAll(r + [p]) == AbsAll(r) + [p.Abs()];
  }

  lemma {:induction false} StandsStill(r: seq<Pairs>, q: Pairs, p: Pairs)
    requires Stands(r, q)
    ensures Stands(r + [p], q)
  {
    hide ComparePairs;
    var j :| 0 <= j < |r| && r[j].key == q.key && ComparePairs(r[j], q) <= 0;
    assert (r + [p])[j] == r[j];
  }

  lemma {:induction false} StrictAppend(ps: seq<Pair>, p: Pair)
    requires StrictKeys(ps) && (ps != [] ==> KeyCmp(ps[|ps| - 1].key, p.key) < 0)
    ensures StrictKeys(ps + [p])
  {
    KeyCmpTotal();
    forall i | 0 <= i < |ps| ensures KeyCmp(ps[i].key, p.key) < 0 {
      if i < |ps| - 1 { assert KeyCmp(ps[i].key, ps[|ps| - 1].key) < 0; }
    }
  }

  /** `hstoreUniquePairs`: sorts the array and moves the first pair of every
      key to the front; reports how many there are and how many bytes of text
      they need. */
  method UniquePairs(a: array<Pairs>) returns (n: nat, buflen: nat)
    modifies a
    ensures n <= a.Length && Distilled(a[..n], old(a[..]))
    ensures buflen == |Chars(AbsAll(a[..n]))|
  {
    hide ComparePairs, Distilled, Firsts, Sorted, BytesOf, AbsAll, Chars;
    ghost var was := a[..];
    buflen := 0;
    if a.Length < 2 {
      if a.Length == 1 {
        buflen := a[0].Bytes();
        assert a[..1] == [a[0]];
      }
      n := a.Length;
      assert a[..n] == was;
      DistilShort(was);
      FewBytes(was);
      return;
    }
    QSort(a);
    ghost var s := a[..];
    FirstsDistil(s);
    DistilPermuted(Firsts(s), s, was);
    n, buflen := KeepFirsts(a);
    BytesAreChars(a[..n]);
  }

  lemma {:induction false} FewBytes(s: seq<Pairs>)
    requires |s| <= 1
    ensures |Chars(AbsAll(s))| == if s == [] then 0 else s[0].Bytes()
  {
    BytesAreChars(s);
  }

  lemma {:induction false} DistilPermuted(r: seq<Pairs>, s: seq<Pairs>, was: seq<Pairs>)
    requires Distilled(r, s) && multiset(s) == multiset(was)
    ensures Distilled(r, was)
  {
    hide ComparePairs, AbsAll, Stands, StrictKeys;
    forall i | 0 <= i < |r| ensures r[i] in was {
      assert r[i] in multiset(s);
    }
    forall i | 0 <= i < |was| ensures Stands(r, was[i]) {
      assert was[i] in multiset(s);
    }
  }

  /** The in-place loop behind the sort. */
  method MoveTo(a: array<Pairs>, res: nat, ptr: nat)
    requires res <= ptr < a.Length
    modifies a
    ensures a[..res + 1] == old(a[..res]) + [old(a[ptr])] && a[..res] == old(a[..res]) && a[ptr..] == old(a[ptr..])
  {
    a[res] := a[ptr];
  }

  lemma {:induction false} TailNext<T>(a: seq<T>, s: seq<T>, k: nat)
    requires |a| == |s| && k < |a| && a[k..] == s[k..]
    ensures a[k + 1..] == s[k + 1..]
  {
    assert a[k + 1..] == a[k..][1..] && s[k + 1..] == s[k..][1..];
  }

  method KeepFirsts(a: array<Pairs>) returns (n: nat, buflen: nat)
    requires a.Length >= 2
    modifies a
    ensures n <= a.Length && a[..n] == Firsts(old(a[..])) && buflen == BytesOf(a[..n])
  {
    hide Firsts, BytesOf;
    ghost var s := a[..];
    var ptr, res := 1, 0;
    buflen := 0;
    FirstsOfOne(s);
    assert a[..1] == s[..1];
    while ptr < a.Length
      invariant 0 <= res < ptr <= a.Length
      invariant a[..res + 1] == Firsts(s[..ptr]) && a[ptr..] == s[ptr..]
      invariant buflen == BytesOf(a[..res])
    {
      assert a[ptr] == a[ptr..][0] == s[ptr];
      FirstsSnoc(s[..ptr], s[ptr]);
      assert s[..ptr + 1] == s[..ptr] + [s[ptr]];
      ghost var kept := a[..res + 1];
      assert kept[res] == a[res];
      if |a[ptr].key| == |a[res].key| && StrCmp(a[ptr].key, a[res].key) == 0 {
        SameText(a[ptr].key, a[res].key);
      } else {
        SameText(a[ptr].key, a[res].key);
        buflen := buflen + a[res].Bytes();
        BytesSnoc(a[..res], a[res]);
        assert a[..res + 1] == a[..res] + [a[res]];
        res := res + 1;
        MoveTo(a, res, ptr);
      }
      TailNext(a[..], s, ptr);
      ptr := ptr + 1;
    }
    assert s[..ptr] == s;
    buflen := buflen + a[res].Bytes();
    BytesSnoc(a[..res], a[res]);
    assert a[..res + 1] == a[..res] + [a[res]];
    n := res + 1;
  }

  lemma {:induction false} FirstsOfOne(s: seq<Pairs>)
    requires s != []
    ensures Firsts(s[..1]) == s[..1] && BytesOf([]) == 0
  {
  }

  lemma {:induction false} BytesSnoc(ps: seq<Pairs>, p: Pairs)
    ensures BytesOf(ps + [p]) == BytesOf(ps) + p.Bytes()
  {
    assert (ps + [p])[..|ps|] == ps;
  }

  /** A list that is already strictly sorted loses nothing. */
  lemma {:induction false} DistilStrict(r: seq<Pairs>, s: seq<Pairs>)
    requires Distilled(r, s) && StrictKeys(AbsAll(s))
    ensures AbsAll(r) == AbsAll(s)
  {
    hide Distilled, MapOf, StrictKeys, AbsAll;
    var m, n := MapOf(AbsAll(r)), MapOf(AbsAll(s));
    forall k ensures Lookup(m, k) == Lookup(n, k) {
      DistilLookup(r, s, k);
    }
    LookupsDecide(m, n);
    DistilledStrict(r, s);
    SameMapSamePairs(AbsAll(r), AbsAll(s));
  }

  lemma {:induction false} DistilledStrict(r: seq<Pairs>, s: seq<Pairs>)
    requires Distilled(r, s)
    ensures StrictKeys(AbsAll(r))
  {
  }

  lemma {:induction false} DistilLookup(r: seq<Pairs>, s: seq<Pairs>, k: string)
    requires Distilled(r, s) && StrictKeys(AbsAll(s))
    ensures Lookup(MapOf(AbsAll(r)), k) == Lookup(MapOf(AbsAll(s)), k)
  {
    hide ComparePairs, StrictKeys, MapOf;
    var x, y := AbsAll(r), AbsAll(s);
    MapOfKeys(x, k);
    MapOfKeys(y, k);
    if k in MapOf(x) {
      var i :| 0 <= i < |x| && x[i].key == k;
      var j :| 0 <= j < |s| && s[j] == r[i];
      MapOfAt(x, i);
      MapOfAt(y, j);
    }
    if k in MapOf(y) {
      var i :| 0 <= i < |y| && y[i].key == k;
      assert Stands(r, s[i]);
      var j :| 0 <= j < |r| && r[j].key == s[i].key && ComparePairs(r[j], s[i]) <= 0;
      assert x[j].key == k;
    }
  }

  /** `hstorePairs`: packs the pairs into a block of exactly the size counted. */
  method PackPairs(pairs: seq<Pairs>, buflen: nat) returns (r: Result<HStore>)
    requires buflen == |Chars(AbsAll(pairs))|
    ensures r.TooBig? <==> !Fits(AbsAll(pairs))
    ensures r.Ok? ==> r.value == Pack(AbsAll(pairs))
  {
    hide Chars, Words, AbsAll, Pack, Builder.Valid;
    var pcount := |pairs|;
    if CalcDataSize(pcount, buflen) > MAX_ALLOC {
      return TooBig;
    }
    if pcount == 0 {
      EmptyPacked();
      return Ok(HStore(CalcDataSize(0, buflen), 0 + NEWVERSION, [], ""));
    }
    var b := new Builder(pcount, buflen);
    for i := 0 to pcount
      invariant b.Valid() && b.prov == pcount && b.mem.Length == 2 * pcount + buflen
      invariant fresh(b) && fresh(b.mem) && b.done == AbsAll(pairs[..i])
    {
      ItemRoom(pairs, i);
      BuilderCursors(b);
      b.AddItem(pairs[i].key, pairs[i].val, pairs[i].isnull);
    }
    assert pairs[..pcount] == pairs;
    var h := b.Finalize(pcount);
    return Ok(h);
  }

  lemma {:induction false} BuilderCursors(b: Builder)
    requires b.Valid()
    ensures b.ed == 2 * |b.done| && b.pd == 2 * b.prov + |Chars(b.done)|
  {
  }

  lemma {:induction false} EmptyPacked()
    ensures Pack([]) == HStore(CalcDataSize(0, 0), NEWVERSION, [], "") && AbsAll([]) == [] && Chars([]) == ""
  {
  }

  lemma {:induction false} ItemRoom(pairs: seq<Pairs>, i: nat)
    requires i < |pairs|
    ensures AbsAll(pairs[..i + 1]) == AbsAll(pairs[..i]) + [pairs[i].Abs()]
    ensures |Chars(AbsAll(pairs[..i]))| + pairs[i].Bytes() <= |Chars(AbsAll(pairs))|
  {
    hide AbsAll, Chars, Words;
    var x := AbsAll(pairs);
    AbsPrefix(pairs, i);
    AbsPrefix(pairs, i + 1);
    assert x[..i + 1] == x[..i] + [x[i]];
    WordsAt(x, i);
    StartsGrow(x, i + 1, |x|);
  }

  lemma {:induction false} AbsPrefix(pairs: seq<Pairs>, i: nat)
    requires i <= |pairs|
    ensures AbsAll(pairs[..i]) == AbsAll(pairs)[..i]
  {
    hide AbsAll;
  }
}
