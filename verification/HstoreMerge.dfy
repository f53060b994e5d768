/** The linear merges on packed hstores: `||` (hstore_concat) and the three
    forms of `-` (hstore_delete, hstore_delete_array, hstore_delete_hstore). */
module HstoreMerge {
  import opened Common
  import opened Order
  import opened HstoreLayout
  import opened HstoreBuild
  import opened HstorePairs
  import opened HstoreOps

  /** What the second operand does to the first. */
  datatype Mode = Override | DropKeys | DropPairs

  /** What a key means afterwards, given what it means in either operand. */
  ghost function Effect(m: Mode, a: Option<Option<string>>, b: Option<Option<string>>): Option<Option<string>> {
    match m
    case Override => if b.Some? then b else a
    case DropKeys => if b.Some? then None else a
    case DropPairs => if a == b then None else a
  }

  /** The comparison a merge step makes at positions i and j. */
  ghost function Difference(p: seq<Pair>, q: seq<Pair>, i: nat, j: nat): int
    requires i <= |p| && j <= |q|
  {
    if i == |p| then 1 else if j == |q| then -1 else KeyCmp(p[i].key, q[j].key)
  }

  ghost function OnEqual(m: Mode, x: Pair, y: Pair): seq<Pair> {
    match m
    case Override => [y]
    case DropKeys => []
    case DropPairs => if x.val != y.val then [x] else []
  }

  /** The pairs a merge still has to write from positions i and j on. */
  ghost function Rest(m: Mode, p: seq<Pair>, q: seq<Pair>, i: nat, j: nat): seq<Pair>
    requires i <= |p| && j <= |q|
    decreases |p| - i + |q| - j
  {
    if i == |p| && (j == |q| || !m.Override?) then []
    else
      var d := Difference(p, q, i, j);
      if d < 0 then [p[i]] + Rest(m, p, q, i + 1, j)
      else if d == 0 then OnEqual(m, p[i], q[j]) + Rest(m, p, q, i + 1, j + 1)
      else if j == |q| then []
      else (if m.Override? then [q[j]] else []) + Rest(m, p, q, i, j + 1)
  }

  // ------------------------------------------------------ what it means

  /** The value of key k among ps[i..]. */
  ghost function LookupFrom(ps: seq<Pair>, i: nat, k: string): Option<Option<string>>
    requires i <= |ps|
    decreases |ps| - i
  {
    if i == |ps| then None else if ps[i].key == k then Some(ps[i].val) else LookupFrom(ps, i + 1, k)
  }

  lemma {:induction false} LookupFromMap(ps: seq<Pair>, i: nat, k: string)
    requires i <= |ps|
    ensures LookupFrom(ps, i, k) == Lookup(MapOf(ps[i..]), k)
    decreases |ps| - i
  {
    if i < |ps| {
      LookupFromMap(ps, i + 1, k);
      assert ps[i..][1..] == ps[i + 1..];
    }
  }

  lemma {:induction false} AbsentBelow(ps: seq<Pair>, i: nat, k: string)
    requires StrictKeys(ps) && i <= |ps| && (i < |ps| ==> KeyCmp(k, ps[i].key) < 0)
    ensures LookupFrom(ps, i, k) == None
    decreases |ps| - i
  {
    if i < |ps| {
      KeyCmpTotal();
      if i + 1 < |ps| { assert KeyCmp(ps[i].key, ps[i + 1].key) < 0; }
      AbsentBelow(ps, i + 1, k);
    }
  }

  lemma {:induction false} LookupCons(x: Pair, t: seq<Pair>, k: string)
    ensures Lookup(MapOf([x] + t), k) == if x.key == k then Some(x.val) else Lookup(MapOf(t), k)
  {
    assert ([x] + t)[1..] == t;
  }

  /** Every key means after the merge what the operation promises. */
  lemma {:induction false} RestLookup(m: Mode, p: seq<Pair>, q: seq<Pair>, i: nat, j: nat, k: string)
    requires StrictKeys(p) && StrictKeys(q) && i <= |p| && j <= |q|
    ensures Lookup(MapOf(Rest(m, p, q, i, j)), k) == Effect(m, LookupFrom(p, i, k), LookupFrom(q, j, k))
    decreases |p| - i + |q| - j
  {
    hide StrictKeys, KeyCmp, Lookup, MapOf, LookupFrom, Effect, OnEqual;
    if i == |p| && (j == |q| || !m.Override?) {
      EmptyLookup(k);
      RunOut(m, p, q, j, k);
    } else {
      var d := Difference(p, q, i, j);
      if d < 0 {
        RestLookup(m, p, q, i + 1, j, k);
        LowerStep(m, p, q, i, j, k);
      } else if d == 0 {
        RestLookup(m, p, q, i + 1, j + 1, k);
        SameKeyIff(p[i].key, q[j].key);
        EqualStep(m, p, q, i, j, k);
      } else {
        RestLookup(m, p, q, i, j + 1, k);
        HigherStep(m, p, q, i, j, k);
      }
    }
  }

  lemma {:induction false} LowerStep(m: Mode, p: seq<Pair>, q: seq<Pair>, i: nat, j: nat, k: string)
    requires StrictKeys(p) && StrictKeys(q) && i < |p| && j <= |q| && Difference(p, q, i, j) < 0
    requires Lookup(MapOf(Rest(m, p, q, i + 1, j)), k) == Effect(m, LookupFrom(p, i + 1, k), LookupFrom(q, j, k))
    ensures Lookup(MapOf([p[i]] + Rest(m, p, q, i + 1, j)), k) == Effect(m, LookupFrom(p, i, k), LookupFrom(q, j, k))
  {
    hide StrictKeys, KeyCmp, Lookup, MapOf, Rest;
    LookupCons(p[i], Rest(m, p, q, i + 1, j), k);
    if k == p[i].key {
      AbsentBelow(q, j, k);
    }
  }

  lemma {:induction false} HigherStep(m: Mode, p: seq<Pair>, q: seq<Pair>, i: nat, j: nat, k: string)
    requires StrictKeys(p) && StrictKeys(q) && i <= |p| && j < |q| && Difference(p, q, i, j) > 0
    requires Lookup(MapOf(Rest(m, p, q, i, j + 1)), k) == Effect(m, LookupFrom(p, i, k), LookupFrom(q, j + 1, k))
    ensures Lookup(MapOf((if m.Override? then [q[j]] else []) + Rest(m, p, q, i, j + 1)), k)
         == Effect(m, LookupFrom(p, i, k), LookupFrom(q, j, k))
  {
    hide StrictKeys, KeyCmp, Lookup, MapOf, Rest;
    var r := Rest(m, p, q, i, j + 1);
    LookupCons(q[j], r, k);
    assert [] + r == r;
    if k == q[j].key && i < |p| {
      FlipKey(p[i].key, k);
      AbsentBelow(p, i, k);
    }
  }

  lemma {:induction false} FlipKey(a: string, b: string)
    ensures KeyCmp(a, b) > 0 <==> KeyCmp(b, a) < 0
  {
    KeyCmpTotal();
  }

  lemma {:induction false} RunOut(m: Mode, p: seq<Pair>, q: seq<Pair>, j: nat, k: string)
    requires j <= |q| && (j == |q| || !m.Override?)
    ensures Effect(m, LookupFrom(p, |p|, k), LookupFrom(q, j, k)) == None
  {
  }

  lemma {:induction false} EmptyLookup(k: string)
    ensures Lookup(MapOf([]), k) == None
  {
  }

  lemma {:induction false} EqualStep(m: Mode, p: seq<Pair>, q: seq<Pair>, i: nat, j: nat, k: string)
    requires StrictKeys(p) && StrictKeys(q) && i < |p| && j < |q| && p[i].key == q[j].key
    requires Lookup(MapOf(Rest(m, p, q, i + 1, j + 1)), k)
          == Effect(m, LookupFrom(p, i + 1, k), LookupFrom(q, j + 1, k))
    ensures Lookup(MapOf(OnEqual(m, p[i], q[j]) + Rest(m, p, q, i + 1, j + 1)), k)
         == Effect(m, LookupFrom(p, i, k), LookupFrom(q, j, k))
  {
    hide StrictKeys, KeyCmp, Lookup, MapOf, Rest;
    var r := Rest(m, p, q, i + 1, j + 1);
    LookupCons(p[i], r, k);
    LookupCons(q[j], r, k);
    assert [] + r == r;
    if k == p[i].key {
      StrictTail(p, i);
      StrictTail(q, j);
      AbsentBelow(p, i + 1, k);
      AbsentBelow(q, j + 1, k);
    }
  }

  lemma {:induction false} StrictTail(p: seq<Pair>, i: nat)
    requires StrictKeys(p) && i < |p|
    ensures i + 1 < |p| ==> KeyCmp(p[i].key, p[i + 1].key) < 0
  {
  }

  // -------------------------------------------------- still in key order

  ghost predicate AllAfter(k: string, ps: seq<Pair>) {
    forall i :: 0 <= i < |ps| ==> KeyCmp(k, ps[i].key) < 0
  }

  lemma {:induction false} StrictCons(x: Pair, t: seq<Pair>)
    requires StrictKeys(t) && AllAfter(x.key, t)
    ensures StrictKeys([x] + t)
  {
    hide KeyCmp;
  }

  lemma {:induction false} AfterCons(k: string, x: Pair, t: seq<Pair>)
    requires KeyCmp(k, x.key) < 0 && AllAfter(k, t)
    ensures AllAfter(k, [x] + t)
  {
  }

  /** Whatever precedes both operands precedes all that the merge writes. */
  lemma {:induction false} RestAfter(m: Mode, p: seq<Pair>, q: seq<Pair>, i: nat, j: nat, k: string)
    requires StrictKeys(p) && StrictKeys(q) && i <= |p| && j <= |q|
    requires i < |p| ==> KeyCmp(k, p[i].key) < 0
    requires j < |q| ==> KeyCmp(k, q[j].key) < 0
    ensures AllAfter(k, Rest(m, p, q, i, j))
    decreases |p| - i + |q| - j
  {
    hide KeyCmp, StrictKeys, AllAfter;
    if i == |p| && (j == |q| || !m.Override?) {
      NothingAfter(k);
    } else {
      var d := Difference(p, q, i, j);
      if i < |p| { StrictTail(p, i); if i + 1 < |p| { KeyTrans(k, p[i].key, p[i + 1].key); } }
      if j < |q| { StrictTail(q, j); if j + 1 < |q| { KeyTrans(k, q[j].key, q[j + 1].key); } }
      if d < 0 {
        RestAfter(m, p, q, i + 1, j, k);
        AfterCons(k, p[i], Rest(m, p, q, i + 1, j));
      } else if d == 0 {
        var r := Rest(m, p, q, i + 1, j + 1);
        RestAfter(m, p, q, i + 1, j + 1, k);
        AfterCons(k, p[i], r);
        AfterCons(k, q[j], r);
        assert [] + r == r;
      } else {
        var r := Rest(m, p, q, i, j + 1);
        RestAfter(m, p, q, i, j + 1, k);
        AfterCons(k, q[j], r);
        assert [] + r == r;
      }
    }
  }

  lemma {:induction false} NothingAfter(k: string)
    ensures StrictKeys([]) && AllAfter(k, [])
  {
  }

  /** The merge writes its pairs in strict order. */
  lemma {:induction false} RestStrict(m: Mode, p: seq<Pair>, q: seq<Pair>, i: nat, j: nat)
    requires StrictKeys(p) && StrictKeys(q) && i <= |p| && j <= |q|
    ensures StrictKeys(Rest(m, p, q, i, j))
    decreases |p| - i + |q| - j
  {
    hide KeyCmp, StrictKeys, AllAfter;
    if i == |p| && (j == |q| || !m.Override?) {
      NothingAfter("");
    } else {
      var d := Difference(p, q, i, j);
      if i < |p| { StrictTail(p, i); }
      if j < |q| { StrictTail(q, j); }
      if d < 0 {
        RestStrict(m, p, q, i + 1, j);
        RestAfter(m, p, q, i + 1, j, p[i].key);
        StrictCons(p[i], Rest(m, p, q, i + 1, j));
      } else if d == 0 {
        var r := Rest(m, p, q, i + 1, j + 1);
        SameKeyIff(p[i].key, q[j].key);
        RestStrict(m, p, q, i + 1, j + 1);
        RestAfter(m, p, q, i + 1, j + 1, p[i].key);
        StrictCons(p[i], r);
        StrictCons(q[j], r);
        assert [] + r == r;
      } else {
        var r := Rest(m, p, q, i, j + 1);
        if i < |p| { FlipKey(p[i].key, q[j].key); }
        RestStrict(m, p, q, i, j + 1);
        RestAfter(m, p, q, i, j + 1, q[j].key);
        StrictCons(q[j], r);
        assert [] + r == r;
      }
    }
  }

  // ------------------------------------------------------------ the loops

  /** The result of a whole merge is canonical and has the promised contents. */
  lemma {:induction false} MergedMeans(m: Mode, h: HStore, q: seq<Pair>, r: seq<Pair>)
    requires h.Canonical() && StrictKeys(q) && r == Rest(m, h.Decode(), q, 0, 0) && Fits(r)
    ensures Pack(r).Canonical() && Pack(r).Decode() == r
    ensures forall k :: Lookup(MapOf(r), k) == Effect(m, Lookup(Contents(h), k), Lookup(MapOf(q), k))
  {
    hide StrictKeys, HStore.Layout, HStore.NullsTidy, HStore.Decode, Rest, Pack, Fits, Effect, Lookup, MapOf;
    var p := h.Decode();
    RestStrict(m, p, q, 0, 0);
    DecodePack(r);
    assert p[0..] == p && q[0..] == q;
    forall k ensures Lookup(MapOf(r), k) == Effect(m, Lookup(Contents(h), k), Lookup(MapOf(q), k)) {
      RestLookup(m, p, q, 0, 0, k);
      LookupFromMap(p, 0, k);
      LookupFromMap(q, 0, k);
    }
  }

  /** HS_COPYITEM of pair i of h, flags and all. */
  method CopyFrom(b: Builder, h: HStore, i: nat)
    requires b.Valid() && h.Canonical() && i < |h.entries| / 2
    requires |b.done| < b.prov
    requires 2 * b.prov + |Chars(b.done)| + Start(h, i + 1) - Start(h, i) <= b.mem.Length
    modifies b, b.mem
    ensures b.Valid() && b.done == old(b.done) + [h.PairAt(i)]
    ensures |Chars(b.done)| == |Chars(old(b.done))| + Start(h, i + 1) - Start(h, i)
  {
    hide Builder.Valid, HStore.Canonical, HStore.Layout, Chars, Start, IsNull, HStore.PairAt;
    CanonicalLayout(h);
    OffsetsDefined(h);
    BuilderCursors(b);
    ItemSpan(h, i);
    Snoc(b.done, h.PairAt(i));
    b.CopyItem(h.str, h.Off(2 * i), h.Len(2 * i), h.Len(2 * i + 1), IsNull(h.entries[2 * i + 1]), h.PairAt(i));
  }

  lemma {:induction false} OffsetsDefined(h: HStore)
    requires h.Layout()
    ensures |h.entries| % 2 == 0 && (h.entries != [] ==> IsFirst(h.entries[0]))
  {
  }

  /** A copy of the input with its size and flag set afresh (HS_FIXSIZE, HS_SETCOUNT). */
  function Copied(h: HStore): HStore
    requires h.Layout()
  {
    var count := h.Count();
    var bl := if count > 0 then EndPos(h.entries[2 * count - 1]) else 0;
    HStore(CalcDataSize(count, bl), count + NEWVERSION, h.entries, h.str)
  }

  lemma {:induction false} CopyIsSame(h: HStore)
    requires h.Layout()
    ensures Copied(h) == h && h.Count() == |h.entries| / 2
  {
    hide EndPos, IsFirst;
  }

  /** Where a merge loop stands: what is written and what is still to come make
      up the whole result, within the room the inputs take up. */
  ghost predicate Merging(b: Builder, m: Mode, p: seq<Pair>, q: seq<Pair>, i: nat, j: nat, used: int, slots: int)
    requires i <= |p| && j <= |q|
    reads b
  {
    b.done + Rest(m, p, q, i, j) == Rest(m, p, q, 0, 0)
    && |Chars(b.done)| <= used && |b.done| <= slots
  }

  lemma {:induction false} MergeStart(p: seq<Pair>, q: seq<Pair>, m: Mode)
    ensures [] + Rest(m, p, q, 0, 0) == Rest(m, p, q, 0, 0) && Chars([]) == ""
  {
  }

  /** One step of Rest, as the loops take it. */
  lemma {:induction false} RestStep(m: Mode, p: seq<Pair>, q: seq<Pair>, i: nat, j: nat)
    requires i <= |p| && j <= |q| && !(i == |p| && (j == |q| || !m.Override?))
    ensures var d := Difference(p, q, i, j);
      && (d < 0 ==> i < |p| && Rest(m, p, q, i, j) == [p[i]] + Rest(m, p, q, i + 1, j))
      && (d == 0 ==> i < |p| && j < |q| && Rest(m, p, q, i, j) == OnEqual(m, p[i], q[j]) + Rest(m, p, q, i + 1, j + 1))
      && (d > 0 ==> j < |q|)
      && (d > 0 ==> Rest(m, p, q, i, j) == (if m.Override? then [q[j]] else []) + Rest(m, p, q, i, j + 1))
  {
  }

  lemma {:induction false} Shift(done: seq<Pair>, x: seq<Pair>, rest: seq<Pair>, whole: seq<Pair>)
    requires done + (x + rest) == whole
    ensures (done + x) + rest == whole
  {
  }

  /** `||`: all pairs of both, those of the second winning. */
  method Concat(s1: HStore, s2: HStore) returns (r: Result<HStore>)
    requires s1.Canonical() && s2.Canonical()
    ensures r.TooBig? <==> s1.varsize + s2.varsize > MAX_ALLOC
    ensures r.Ok? ==> r.value.Canonical() && Contents(r.value) == Contents(s1) + Contents(s2)
  {
    hide HStore.Layout, HStore.NullsTidy, HStore.Decode, MapOf, StrictKeys, HStore.Canonical, HStore.PairAt, KeyCmp;
    CanonicalLayout(s1);
    CanonicalLayout(s2);
    CopyIsSame(s1);
    CopyIsSame(s2);
    if s1.varsize + s2.varsize > MAX_ALLOC {
      return TooBig;
    }
    var s1count, s2count := s1.Count(), s2.Count();
    if s1count == 0 {
      EmptyMap(s1.Decode());
      return Ok(Copied(s2));
    }
    if s2count == 0 {
      EmptyMap(s2.Decode());
      return Ok(Copied(s1));
    }
    var h := ConcatLoop(s1, s2);
    return Ok(h);
  }

  /** The builder holds what the merge has written so far, with room for all
      that can still come. */
  ghost predicate Room(b: Builder, slots: int, bytes: int)
    reads b, b.mem
  {
    b.Valid() && b.prov == slots && b.mem.Length == 2 * slots + bytes
  }

  method ConcatStep(b: Builder, s1: HStore, s2: HStore, i: nat, j: nat) returns (i': nat, j': nat)
    requires s1.Canonical() && s2.Canonical() && i <= |s1.entries| / 2 && j <= |s2.entries| / 2
    requires i < |s1.entries| / 2 || j < |s2.entries| / 2
    requires Room(b, |s1.entries| / 2 + |s2.entries| / 2, |s1.str| + |s2.str|)
    requires Merging(b, Override, s1.Decode(), s2.Decode(), i, j, Start(s1, i) + Start(s2, j), i + j)
    modifies b, b.mem
    ensures i <= i' <= |s1.entries| / 2 && j <= j' <= |s2.entries| / 2 && i + j < i' + j'
    ensures Room(b, |s1.entries| / 2 + |s2.entries| / 2, |s1.str| + |s2.str|)
    ensures Merging(b, Override, s1.Decode(), s2.Decode(), i', j', Start(s1, i') + Start(s2, j'), i' + j')
    ensures |b.done| == |old(b.done)| + 1
  {
    hide HStore.Layout, HStore.NullsTidy, HStore.Decode, MapOf, StrictKeys, HStore.Canonical, HStore.PairAt, KeyCmp,
      Builder.Valid, Rest, Start, Chars, HStore.Key;
    SizesOf(s1);
    SizesOf(s2);
    ghost var p, q := s1.Decode(), s2.Decode();
    var n1, n2 := |s1.entries| / 2, |s2.entries| / 2;
    StartsRise(s1, i, n1);
    StartsRise(s2, j, n2);
    RestStep(Override, p, q, i, j);
    ghost var done, whole := b.done, Rest(Override, p, q, 0, 0);
    var difference;
    if i >= n1 {
      difference := 1;
    } else if j >= n2 {
      difference := -1;
    } else {
      difference := KeyCmp(s1.Key(i), s2.Key(j));
      KeyOfPair(s1, i);
      KeyOfPair(s2, j);
    }
    assert difference == Difference(p, q, i, j);
    i', j' := i, j;
    if difference >= 0 {
      StartsRise(s2, j, j + 1);
      StartsRise(s2, j + 1, n2);
      CopyFrom(b, s2, j);
      KeyOfPair(s2, j);
      j' := j' + 1;
      if difference == 0 {
        StartsRise(s1, i, i + 1);
        i' := i' + 1;
      }
      Shift(done, [q[j]], Rest(Override, p, q, i', j'), whole);
    } else {
      StartsRise(s1, i, i + 1);
      StartsRise(s1, i + 1, n1);
      CopyFrom(b, s1, i);
      KeyOfPair(s1, i);
      i' := i' + 1;
      Shift(done, [p[i]], Rest(Override, p, q, i', j'), whole);
    }
  }

  method ConcatLoop(s1: HStore, s2: HStore) returns (h: HStore)
    requires s1.Canonical() && s2.Canonical() && s1.varsize + s2.varsize <= MAX_ALLOC
    ensures h.Canonical() && Contents(h) == Contents(s1) + Contents(s2)
  {
    hide HStore.Layout, HStore.NullsTidy, HStore.Decode, MapOf, StrictKeys, HStore.Canonical, HStore.PairAt, KeyCmp,
      Builder.Valid, Rest, Start, Chars, Fits, Pack, HStore.Key;
    SizesOf(s1);
    SizesOf(s2);
    ghost var p, q := s1.Decode(), s2.Decode();
    var n1, n2 := |s1.entries| / 2, |s2.entries| / 2;
    var b := new Builder(n1 + n2, |s1.str| + |s2.str|);
    var i, j, outcount := 0, 0, 0;
    StartBound(s1, 0);
    StartBound(s2, 0);
    MergeStart(p, q, Override);
    while i < n1 || j < n2
      invariant i <= n1 && j <= n2 && outcount == |b.done| && fresh(b) && fresh(b.mem)
      invariant Room(b, n1 + n2, |s1.str| + |s2.str|)
      invariant Merging(b, Override, p, q, i, j, Start(s1, i) + Start(s2, j), i + j)
      decreases n1 - i + n2 - j
    {
      i, j := ConcatStep(b, s1, s2, i, j);
      outcount := outcount + 1;
    }
    NothingLeft(Override, p, q);
    StartsRise(s1, n1, n1);
    StartsRise(s2, n2, n2);
    Whole(b.done, Rest(Override, p, q, 0, 0));
    FitsWithin(b.done, n1 + n2, |s1.str| + |s2.str|);
    h := b.Finalize(outcount);
    ConcatMeans(s1, s2, b.done);
  }

  lemma {:induction false} FitsWithin(r: seq<Pair>, n: nat, len: nat)
    requires |r| <= n && |Chars(r)| <= len && CalcDataSize(n, len) <= MAX_ALLOC
    ensures Fits(r)
  {
    hide Chars;
  }

  lemma {:induction false} Whole(a: seq<Pair>, w: seq<Pair>)
    requires a + [] == w
    ensures a == w
  {
  }

  lemma {:induction false} NothingLeft(m: Mode, p: seq<Pair>, q: seq<Pair>)
    ensures Rest(m, p, q, |p|, |q|) == []
    ensures !m.Override? ==> forall j :: 0 <= j <= |q| ==> Rest(m, p, q, |p|, j) == []
  {
  }

  lemma {:induction false} SizesOf(h: HStore)
    requires h.Canonical()
    ensures h.Layout() && StrictKeys(h.Decode()) && |h.Decode()| == |h.entries| / 2
    ensures h.varsize == CalcDataSize(|h.entries| / 2, |h.str|) <= MAX_ALLOC
  {
  }

  lemma {:induction false} KeyOfPair(h: HStore, i: nat)
    requires h.Layout() && i < |h.entries| / 2
    ensures h.Decode()[i] == h.PairAt(i) && h.Decode()[i].key == h.Key(i) == h.PairAt(i).key
  {
    hide HStore.Layout, HStore.Decode;
  }

  lemma {:induction false} ConcatMeans(s1: HStore, s2: HStore, r: seq<Pair>)
    requires s1.Canonical() && s2.Canonical() && r == Rest(Override, s1.Decode(), s2.Decode(), 0, 0) && Fits(r)
    ensures Pack(r).Canonical() && Contents(Pack(r)) == Contents(s1) + Contents(s2)
  {
    hide HStore.Layout, HStore.NullsTidy, HStore.Decode, MapOf, StrictKeys, Rest, Fits, Pack;
    MergedMeans(Override, s1, s2.Decode(), r);
    var m, n := MapOf(r), Contents(s1) + Contents(s2);
    forall k ensures Lookup(m, k) == Lookup(n, k) {
      assert Lookup(m, k) == Effect(Override, Lookup(Contents(s1), k), Lookup(Contents(s2), k));
    }
    LookupsDecide(m, n);
  }

  // -------------------------------------------------------------- removal

  /** One step of a removing merge, once the keys at i and j are compared. */
  method RemoveStep(
    b: Builder, h: HStore, ghost m: Mode, ghost q: seq<Pair>, i: nat, j: nat, difference: int, keep: bool)
    returns (i': nat, j': nat)
    requires h.Canonical() && !m.Override? && i < |h.entries| / 2 && j <= |q|
    requires Sign(difference) == Sign(Difference(h.Decode(), q, i, j))
    requires difference == 0 ==> j < |q| && OnEqual(m, h.Decode()[i], q[j]) == if keep then [h.Decode()[i]] else []
    requires Room(b, |h.entries| / 2, |h.str|) && Merging(b, m, h.Decode(), q, i, j, Start(h, i), i)
    modifies b, b.mem
    ensures i <= i' <= |h.entries| / 2 && j <= j' <= |q| && i + j < i' + j'
    ensures Room(b, |h.entries| / 2, |h.str|) && Merging(b, m, h.Decode(), q, i', j', Start(h, i'), i')
    ensures |b.done| == |old(b.done)| + if difference < 0 || (difference == 0 && keep) then 1 else 0
  {
    hide HStore.Layout, HStore.NullsTidy, HStore.Decode, MapOf, StrictKeys, HStore.Canonical, HStore.PairAt, KeyCmp,
      Builder.Valid, Rest, Start, Chars, HStore.Key;
    SizesOf(h);
    ghost var p := h.Decode();
    RestStep(m, p, q, i, j);
    ghost var done, whole := b.done, Rest(m, p, q, 0, 0);
    StartsRise(h, i, i + 1);
    StartsRise(h, i + 1, |h.entries| / 2);
    KeyOfPair(h, i);
    i', j' := i, j;
    if difference > 0 {
      j' := j' + 1;
      Shift(done, [], Rest(m, p, q, i, j'), whole);
      assert done + [] == done;
    } else if difference == 0 {
      if keep {
        CopyFrom(b, h, i);
      }
      i', j' := i' + 1, j' + 1;
      Shift(done, if keep then [p[i]] else [], Rest(m, p, q, i', j'), whole);
      assert done + [] == done;
    } else {
      CopyFrom(b, h, i);
      i' := i' + 1;
      Shift(done, [p[i]], Rest(m, p, q, i', j), whole);
    }
  }

  function Sign(x: int): int {
    if x < 0 then -1 else if x > 0 then 1 else 0
  }

  /** The pairs of m whose key is not asked for. */
  ghost function Without(m: map<string, Option<string>>, keys: seq<Option<string>>): map<string, Option<string>> {
    map k | k in m && !Sought(keys, k) :: m[k]
  }

  /** `-` with an array of keys. */
  method DeleteArray(h: HStore, keys: seq<Option<string>>) returns (r: Result<HStore>)
    requires h.Canonical()
    ensures r.TooBig? <==> |keys| > MAX_KEYS
    ensures r.Ok? ==> r.value.Canonical() && Contents(r.value) == Without(Contents(h), keys)
  {
    hide HStore.Layout, HStore.NullsTidy, HStore.Decode, MapOf, StrictKeys, HStore.Canonical, HStore.PairAt, KeyCmp,
      Builder.Valid, Rest, Start, Chars, Fits, Pack, HStore.Key, AbsAll;
    SizesOf(h);
    CopyIsSame(h);
    var pairs := ArrayToPairs(keys);
    if pairs.TooBig? {
      return TooBig;
    }
    var kp := pairs.value;
    if |kp| == 0 {
      forall k ensures !Sought(keys, k) { assert !HasKey(kp, k); }
      return Ok(Copied(h));
    }
    ghost var p, q := h.Decode(), AbsAll(kp);
    var n := |h.entries| / 2;
    var b := new Builder(n, |h.str|);
    var i, j, outcount := 0, 0, 0;
    StartBound(h, 0);
    MergeStart(p, q, DropKeys);
    while i < n
      invariant i <= n && j <= |kp| && outcount == |b.done| && fresh(b) && fresh(b.mem)
      invariant Room(b, n, |h.str|) && Merging(b, DropKeys, p, q, i, j, Start(h, i), i)
      decreases n - i + |kp| - j
    {
      var difference := -1;
      if j < |kp| {
        difference := KeyCmp(h.Key(i), kp[j].key);
      }
      KeyOfPair(h, i);
      i, j := RemoveStep(b, h, DropKeys, q, i, j, difference, false);
      if difference < 0 {
        outcount := outcount + 1;
      }
    }
    NothingLeft(DropKeys, p, q);
    StartsRise(h, n, n);
    Whole(b.done, Rest(DropKeys, p, q, 0, 0));
    FitsWithin(b.done, n, |h.str|);
    var out := b.Finalize(outcount);
    DeleteArrayMeans(h, keys, kp, b.done);
    return Ok(out);
  }

  lemma {:induction false} DeleteArrayMeans(h: HStore, keys: seq<Option<string>>, kp: seq<Pairs>, r: seq<Pair>)
    requires h.Canonical() && StrictKeys(AbsAll(kp)) && r == Rest(DropKeys, h.Decode(), AbsAll(kp), 0, 0) && Fits(r)
    requires forall k :: HasKey(kp, k) <==> Sought(keys, k)
    ensures Pack(r).Canonical() && Contents(Pack(r)) == Without(Contents(h), keys)
  {
    hide HStore.Layout, HStore.NullsTidy, HStore.Decode, MapOf, StrictKeys, Rest, Fits, Pack, AbsAll, KeyCmp;
    MergedMeans(DropKeys, h, AbsAll(kp), r);
    var m, n := MapOf(r), Without(Contents(h), keys);
    forall k ensures Lookup(m, k) == Lookup(n, k) {
      assert Lookup(m, k) == Effect(DropKeys, Lookup(Contents(h), k), Lookup(MapOf(AbsAll(kp)), k));
      MapOfKeys(AbsAll(kp), k);
      SameKeys(kp, k);
    }
    LookupsDecide(m, n);
  }

  lemma {:induction false} SameKeys(kp: seq<Pairs>, k: string)
    ensures HasKey(kp, k) <==> exists i :: 0 <= i < |AbsAll(kp)| && AbsAll(kp)[i].key == k
  {
    hide AbsAll;
    if HasKey(kp, k) {
      var i :| 0 <= i < |kp| && kp[i].key == k;
      assert AbsAll(kp)[i].key == k;
    }
  }

  /** The pairs of m that are not pairs of n. */
  ghost function Minus(m: map<string, Option<string>>, n: map<string, Option<string>>): map<string, Option<string>> {
    map k | k in m && !(k in n && n[k] == m[k]) :: m[k]
  }

  /** `-` with an hstore: only exact pairs go, a key with another value stays. */
  method DeleteHstore(h: HStore, h2: HStore) returns (r: HStore)
    requires h.Canonical() && h2.Canonical()
    ensures r.Canonical() && Contents(r) == Minus(Contents(h), Contents(h2))
  {
    hide HStore.Layout, HStore.NullsTidy, HStore.Decode, MapOf, StrictKeys, HStore.Canonical, HStore.PairAt, KeyCmp,
      Builder.Valid, Rest, Start, Chars, Fits, Pack, HStore.Key;
    SizesOf(h);
    SizesOf(h2);
    CopyIsSame(h);
    CopyIsSame(h2);
    if h2.Count() == 0 {
      EmptyMap(h2.Decode());
      return Copied(h);
    }
    ghost var p, q := h.Decode(), h2.Decode();
    var n, n2 := |h.entries| / 2, |h2.entries| / 2;
    var b := new Builder(n, |h.str|);
    var i, j, outcount := 0, 0, 0;
    StartBound(h, 0);
    MergeStart(p, q, DropPairs);
    while i < n
      invariant i <= n && j <= n2 && outcount == |b.done| && fresh(b) && fresh(b.mem)
      invariant Room(b, n, |h.str|) && Merging(b, DropPairs, p, q, i, j, Start(h, i), i)
      decreases n - i + n2 - j
    {
      var difference, same := -1, true;
      KeyOfPair(h, i);
      if j < n2 {
        difference := KeyCmp(h.Key(i), h2.Key(j));
        KeyOfPair(h2, j);
        if difference == 0 {
          same := SameValue(h, i, h2, j);
        }
      }
      i, j := RemoveStep(b, h, DropPairs, q, i, j, difference, !same);
      if difference < 0 || (difference == 0 && !same) {
        outcount := outcount + 1;
      }
    }
    NothingLeft(DropPairs, p, q);
    StartsRise(h, n, n);
    Whole(b.done, Rest(DropPairs, p, q, 0, 0));
    FitsWithin(b.done, n, |h.str|);
    r := b.Finalize(outcount);
    DeleteHstoreMeans(h, h2, b.done);
  }

  lemma {:induction false} DeleteHstoreMeans(h: HStore, h2: HStore, r: seq<Pair>)
    requires h.Canonical() && h2.Canonical() && r == Rest(DropPairs, h.Decode(), h2.Decode(), 0, 0) && Fits(r)
    ensures Pack(r).Canonical() && Contents(Pack(r)) == Minus(Contents(h), Contents(h2))
  {
    hide HStore.Layout, HStore.NullsTidy, HStore.Decode, MapOf, StrictKeys, Rest, Fits, Pack;
    MergedMeans(DropPairs, h, h2.Decode(), r);
    var m, n := MapOf(r), Minus(Contents(h), Contents(h2));
    forall k ensures Lookup(m, k) == Lookup(n, k) {
      assert Lookup(m, k) == Effect(DropPairs, Lookup(Contents(h), k), Lookup(Contents(h2), k));
    }
    LookupsDecide(m, n);
  }

  /** `-` with one key: every other pair is copied, in order. */
  method Delete(h: HStore, key: string) returns (r: HStore)
    requires h.Canonical()
    ensures r.Canonical() && Contents(r) == Contents(h) - {key}
  {
    hide HStore.Layout, HStore.NullsTidy, HStore.Decode, MapOf, StrictKeys, HStore.Canonical, HStore.PairAt, KeyCmp,
      Builder.Valid, Start, Chars, Fits, Pack, HStore.Key, Sifted, StrCmp;
    SizesOf(h);
    ghost var p := h.Decode();
    var count := |h.entries| / 2;
    var b := new Builder(count, |h.str|);
    var outcount := 0;
    StartBound(h, 0);
    NothingSifted(p, key);
    for i := 0 to count
      invariant outcount == |b.done| <= i && fresh(b) && fresh(b.mem) && Room(b, count, |h.str|)
      invariant |Chars(b.done)| <= Start(h, i) && Sifted(p, i, key, b.done)
    {
      StartsRise(h, i, i + 1);
      StartsRise(h, i + 1, count);
      KeyOfPair(h, i);
      SameText(h.Key(i), key);
      SiftStep(p, i, key, b.done);
      if !(|h.Key(i)| == |key| && StrCmp(h.Key(i), key) == 0) {
        CopyFrom(b, h, i);
        outcount := outcount + 1;
      }
    }
    StartsRise(h, count, count);
    FitsWithin(b.done, count, |h.str|);
    r := b.Finalize(outcount);
    SiftMeans(h, key, b.done);
  }

  /** r holds the pairs of p[..i] but those of the key, in strict order. */
  ghost predicate Sifted(p: seq<Pair>, i: nat, key: string, r: seq<Pair>)
    requires i <= |p|
  {
    StrictKeys(r) && (r != [] && i < |p| ==> KeyCmp(r[|r| - 1].key, p[i].key) < 0)
    && forall k :: Lookup(MapOf(r), k) == if k == key then None else Lookup(MapOf(p[..i]), k)
  }

  lemma {:induction false} NothingSifted(p: seq<Pair>, key: string)
    ensures Sifted(p, 0, key, []) && Chars([]) == ""
  {
    assert p[..0] == [];
  }

  lemma {:induction false} SiftStep(p: seq<Pair>, i: nat, key: string, r: seq<Pair>)
    requires StrictKeys(p) && i < |p| && Sifted(p, i, key, r)
    ensures Sifted(p, i + 1, key, if p[i].key == key then r else r + [p[i]])
  {
    hide StrictKeys, KeyCmp, MapOf;
    var r' := if p[i].key == key then r else r + [p[i]];
    assert p[..i + 1] == p[..i] + [p[i]];
    StrictPrefix(p, i + 1);
    StrictTail(p, i);
    if p[i].key == key {
      if i + 1 < |p| && r != [] { KeyTrans(r[|r| - 1].key, p[i].key, p[i + 1].key); }
    } else {
      StrictAppend(r, p[i]);
    }
    forall k ensures Lookup(MapOf(r'), k) == if k == key then None else Lookup(MapOf(p[..i + 1]), k) {
      MapSnoc(p[..i], p[i], k);
      if p[i].key != key { MapSnoc(r, p[i], k); }
    }
  }

  lemma {:induction false} SiftMeans(h: HStore, key: string, r: seq<Pair>)
    requires h.Canonical() && Sifted(h.Decode(), |h.Decode()|, key, r) && Fits(r)
    ensures Pack(r).Canonical() && Contents(Pack(r)) == Contents(h) - {key}
  {
    hide HStore.Layout, HStore.NullsTidy, HStore.Decode, MapOf, StrictKeys, Fits, Pack, KeyCmp;
    var p := h.Decode();
    DecodePack(r);
    assert p[..|p|] == p;
    var m, n := MapOf(r), Contents(h) - {key};
    forall k ensures Lookup(m, k) == Lookup(n, k) {
    }
    LookupsDecide(m, n);
  }
}
