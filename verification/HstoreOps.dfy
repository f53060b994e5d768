/** Operators on packed hstores that look keys up by binary search with a cached
    lower bound: existence, containment and slices. */
module HstoreOps {
  import opened Common
  import opened Order
  import opened HstoreLayout
  import opened HstorePairs

  /** The map a canonical value stands for. */
  ghost function Contents(h: HStore): map<string, Option<string>>
    requires h.Layout()
  {
    MapOf(h.Decode())
  }

  // ------------------------------------------------------ hstoreFindKey

  ghost predicate AllBefore(ps: seq<Pair>, low: int, key: string) {
    0 <= low <= |ps| && forall i :: 0 <= i < low ==> KeyCmp(ps[i].key, key) < 0
  }

  /** From position lo on, every key of ps is at or after cut for key. */
  ghost predicate Splits(ps: seq<Pair>, lo: int, cut: int, key: string) {
    0 <= lo <= cut <= |ps|
    && (forall i :: lo <= i < cut ==> KeyCmp(ps[i].key, key) < 0)
    && (forall i :: cut <= i < |ps| ==> KeyCmp(ps[i].key, key) > 0)
  }

  /** `hstoreFindKey`: searches from the cached lower bound on; returns the new
      bound besides the index, or -1. */
  method FindKey(h: HStore, lowbound: int, key: string) returns (idx: int, low: int)
    requires h.Canonical() && 0 <= lowbound <= |h.entries| / 2
    ensures idx == -1 || lowbound <= idx < |h.entries| / 2
    ensures idx >= 0 ==> h.Key(idx) == key && low == idx + 1
    ensures idx < 0 ==> Splits(h.Decode(), lowbound, low, key)
    ensures lowbound <= low <= |h.entries| / 2
  {
    hide HStore.Layout, HStore.NullsTidy, HStore.Decode, KeyCmp;
    ghost var ps := h.Decode();
    var stopLow, stopHigh := lowbound, |h.entries| / 2;
    while stopLow < stopHigh
      invariant lowbound <= stopLow <= stopHigh <= |ps|
      invariant forall i :: lowbound <= i < stopLow ==> KeyCmp(ps[i].key, key) < 0
      invariant forall i :: stopHigh <= i < |ps| ==> KeyCmp(ps[i].key, key) > 0
    {
      var stopMiddle := stopLow + (stopHigh - stopLow) / 2;
      var difference := KeyCmp(h.Key(stopMiddle), key);
      assert ps[stopMiddle].key == h.Key(stopMiddle);
      if difference == 0 {
        SameKeyIff(h.Key(stopMiddle), key);
        return stopMiddle, stopMiddle + 1;
      } else if difference < 0 {
        forall i | lowbound <= i <= stopMiddle ensures KeyCmp(ps[i].key, key) < 0 {
          BeforeStays(ps, i, stopMiddle, key);
        }
        stopLow := stopMiddle + 1;
      } else {
        forall i | stopMiddle <= i < |ps| ensures KeyCmp(ps[i].key, key) > 0 {
          AfterStays(ps, stopMiddle, i, key);
        }
        stopHigh := stopMiddle;
      }
    }
    return -1, stopLow;
  }

  lemma {:induction false} SameKeyIff(a: string, b: string)
    ensures KeyCmp(a, b) == 0 <==> a == b
  {
    KeyCmpTotal();
  }

  lemma {:induction false} BeforeStays(ps: seq<Pair>, i: nat, j: nat, key: string)
    requires StrictKeys(ps) && i <= j < |ps| && KeyCmp(ps[j].key, key) < 0
    ensures KeyCmp(ps[i].key, key) < 0
  {
    KeyCmpTotal();
    if i < j { assert KeyCmp(ps[i].key, ps[j].key) < 0; }
  }

  lemma {:induction false} AfterStays(ps: seq<Pair>, i: nat, j: nat, key: string)
    requires StrictKeys(ps) && i <= j < |ps| && KeyCmp(ps[i].key, key) > 0
    ensures KeyCmp(ps[j].key, key) > 0
  {
    KeyCmpTotal();
    if i < j { assert KeyCmp(ps[i].key, ps[j].key) < 0; }
  }

  /** The cached bound is harmless: when everything before it is smaller than
      the key, searching behind it answers as a search of the whole map, and
      the new bound serves every larger key. */
  lemma {:induction false} CachedBoundHarmless(ps: seq<Pair>, lowbound: int, key: string, idx: int, low: int)
    requires StrictKeys(ps) && AllBefore(ps, lowbound, key)
    requires if idx >= 0 then lowbound <= idx < |ps| && ps[idx].key == key && low == idx + 1
             else Splits(ps, lowbound, low, key)
    ensures Lookup(MapOf(ps), key) == if idx >= 0 then Some(ps[idx].val) else None
    ensures forall next :: KeyCmp(key, next) < 0 ==> AllBefore(ps, low, next)
  {
    KeyCmpTotal();
    if idx >= 0 {
      MapOfAt(ps, idx);
    } else {
      MapOfKeys(ps, key);
      forall i | 0 <= i < |ps| ensures ps[i].key != key {
        assert KeyCmp(ps[i].key, key) != 0;
      }
    }
    forall next | KeyCmp(key, next) < 0 ensures AllBefore(ps, low, next) {
      forall i | 0 <= i < low ensures KeyCmp(ps[i].key, next) < 0 {
        if idx >= 0 && i < idx { assert KeyCmp(ps[i].key, ps[idx].key) < 0; }
        assert KeyCmp(ps[i].key, key) <= 0;
      }
    }
  }

  /** The same for the packed value, as the loops below use it. */
  lemma {:induction false} SeekFacts(h: HStore, lowbound: int, key: string, idx: int, low: int)
    requires h.Canonical() && AllBefore(h.Decode(), lowbound, key)
    requires if idx >= 0 then lowbound <= idx < |h.entries| / 2 && h.Key(idx) == key && low == idx + 1
             else Splits(h.Decode(), lowbound, low, key)
    ensures Lookup(Contents(h), key) == if idx >= 0 then Some(h.PairAt(idx).val) else None
    ensures forall next :: KeyCmp(key, next) < 0 ==> AllBefore(h.Decode(), low, next)
  {
    hide HStore.Layout, HStore.NullsTidy, HStore.Decode, MapOf, StrictKeys, Splits, AllBefore, KeyCmp;
    CachedBoundHarmless(h.Decode(), lowbound, key, idx, low);
  }

  // ------------------------------------------------------- key arrays

  ghost predicate HasKey(kp: seq<Pairs>, k: string) {
    exists i :: 0 <= i < |kp| && kp[i].key == k
  }

  /** The longest array of keys: a pair is allocated for each, null or not. */
  const MAX_KEYS := 26843545

  /** `hstoreArrayToPairs`: the non-null keys of an array, sorted and distinct; the
      error exactly when the array is too long. */
  method ArrayToPairs(keys: seq<Option<string>>) returns (r: Result<seq<Pairs>>)
    ensures r.TooBig? <==> |keys| > MAX_KEYS
    ensures r.Ok? ==> StrictKeys(AbsAll(r.value))
    ensures r.Ok? ==> forall k :: HasKey(r.value, k) <==> Sought(keys, k)
  {
    if |keys| == 0 {
      return Ok([]);
    }
    if PAIR_BYTES * |keys| > MAX_ALLOC {
      return TooBig;
    }
    var list: seq<Pairs> := [];
    for i := 0 to |keys|
      invariant forall k :: HasKey(list, k) <==> Some(k) in keys[..i]
    {
      assert keys[..i + 1] == keys[..i] + [keys[i]];
      if keys[i].Some? {
        ghost var was := list;
        list := list + [Pairs(keys[i].value, "", true, false)];
        KeyAdded(was, list[|was|]);
      }
    }
    assert keys[..|keys|] == keys;
    var a := new Pairs[|list|](i requires 0 <= i < |list| => list[i]);
    assert a[..] == list;
    var n, buflen := UniquePairs(a);
    DistilledKeys(a[..n], list);
    return Ok(a[..n]);
  }

  lemma {:induction false} KeyAdded(list: seq<Pairs>, p: Pairs)
    ensures forall k :: HasKey(list + [p], k) <==> HasKey(list, k) || k == p.key
  {
    var l := list + [p];
    assert l[|list|] == p;
    forall k | HasKey(list, k) ensures HasKey(l, k) {
      var j :| 0 <= j < |list| && list[j].key == k;
      assert l[j] == list[j];
    }
  }

  lemma {:induction false} DistilledKeys(r: seq<Pairs>, s: seq<Pairs>)
    requires Distilled(r, s)
    ensures StrictKeys(AbsAll(r))
    ensures forall k :: HasKey(r, k) <==> HasKey(s, k)
  {
    hide AbsAll, StrictKeys, ComparePairs;
    forall k | HasKey(s, k) ensures HasKey(r, k) {
      var i :| 0 <= i < |s| && s[i].key == k;
      assert Stands(r, s[i]);
    }
  }

  ghost predicate Sought(keys: seq<Option<string>>, k: string) {
    Some(k) in keys
  }

  /** `?|`: does any of the keys exist? */
  method ExistsAny(h: HStore, keys: seq<Option<string>>) returns (r: Result<bool>)
    requires h.Canonical()
    ensures r.TooBig? <==> |keys| > MAX_KEYS
    ensures r.Ok? ==> (r.value <==> exists k :: Sought(keys, k) && k in Contents(h))
  {
    hide HStore.Layout, HStore.NullsTidy, HStore.Decode, MapOf, StrictKeys, Splits, KeyCmp, Contents, AbsAll;
    var pairs := ArrayToPairs(keys);
    if pairs.TooBig? {
      return TooBig;
    }
    var kp := pairs.value;
    var lowbound := 0;
    var res := false;
    var i := 0;
    while !res && i < |kp|
      invariant 0 <= i <= |kp| && 0 <= lowbound <= |h.entries| / 2
      invariant i < |kp| ==> AllBefore(h.Decode(), lowbound, kp[i].key)
      invariant !res ==> forall j :: 0 <= j < i ==> kp[j].key !in Contents(h)
      invariant res ==> exists k :: Sought(keys, k) && k in Contents(h)
    {
      var idx, low := FindKey(h, lowbound, kp[i].key);
      SeekFacts(h, lowbound, kp[i].key, idx, low);
      NextKey(kp, i);
      lowbound := low;
      if idx >= 0 {
        res := true;
        assert HasKey(kp, kp[i].key);
      }
      i := i + 1;
    }
    if !res {
      forall k | Sought(keys, k) ensures k !in Contents(h) {
        assert HasKey(kp, k);
      }
    }
    return Ok(res);
  }

  lemma {:induction false} NextKey(kp: seq<Pairs>, i: nat)
    requires StrictKeys(AbsAll(kp)) && i < |kp|
    ensures i + 1 < |kp| ==> KeyCmp(kp[i].key, kp[i + 1].key) < 0
  {
    hide KeyCmp;
    if i + 1 < |kp| { assert KeyCmp(AbsAll(kp)[i].key, AbsAll(kp)[i + 1].key) < 0; }
  }

  /** `?&`: do all of the keys exist?  False when there is no key to look for. */
  method ExistsAll(h: HStore, keys: seq<Option<string>>) returns (r: Result<bool>)
    requires h.Canonical()
    ensures r.TooBig? <==> |keys| > MAX_KEYS
    ensures r.Ok? ==>
      (r.value <==> (exists k :: Sought(keys, k)) && forall k :: Sought(keys, k) ==> k in Contents(h))
  {
    hide HStore.Layout, HStore.NullsTidy, HStore.Decode, MapOf, StrictKeys, Splits, KeyCmp, Contents, AbsAll;
    var pairs := ArrayToPairs(keys);
    if pairs.TooBig? {
      return TooBig;
    }
    var kp := pairs.value;
    var lowbound := 0;
    var res := |kp| != 0;
    assert res ==> HasKey(kp, kp[0].key);
    var i := 0;
    while res && i < |kp|
      invariant 0 <= i <= |kp| && 0 <= lowbound <= |h.entries| / 2
      invariant i < |kp| ==> AllBefore(h.Decode(), lowbound, kp[i].key)
      invariant res ==> |kp| != 0 && forall j :: 0 <= j < i ==> kp[j].key in Contents(h)
      invariant !res ==> |kp| == 0 || exists k :: Sought(keys, k) && k !in Contents(h)
    {
      var idx, low := FindKey(h, lowbound, kp[i].key);
      SeekFacts(h, lowbound, kp[i].key, idx, low);
      NextKey(kp, i);
      lowbound := low;
      if idx < 0 {
        res := false;
        assert HasKey(kp, kp[i].key);
      }
      i := i + 1;
    }
    if res {
      forall k | Sought(keys, k) ensures k in Contents(h) {
        assert HasKey(kp, k);
      }
    } else if |kp| == 0 {
      assert forall k :: !HasKey(kp, k);
    }
    return Ok(res);
  }

  /** `@>`: is every pair of tmpl a pair of val? */
  method Contains(val: HStore, tmpl: HStore) returns (res: bool)
    requires val.Canonical() && tmpl.Canonical()
    ensures res <==> forall k :: k in Contents(tmpl) ==> k in Contents(val) && Contents(val)[k] == Contents(tmpl)[k]
  {
    hide HStore.Layout, HStore.NullsTidy, HStore.Decode, MapOf, StrictKeys, Splits, KeyCmp;
    ghost var ps := tmpl.Decode();
    var lastidx, i := 0, 0;
    res := true;
    while res && i < |tmpl.entries| / 2
      invariant 0 <= i <= |ps| && 0 <= lastidx <= |val.entries| / 2
      invariant i < |ps| ==> AllBefore(val.Decode(), lastidx, ps[i].key)
      invariant res ==> forall j :: 0 <= j < i ==> Agrees(val, ps[j])
      invariant !res ==> exists j :: 0 <= j < |ps| && !Agrees(val, ps[j])
    {
      var idx, low := FindKey(val, lastidx, tmpl.Key(i));
      assert ps[i] == tmpl.PairAt(i) && ps[i].key == tmpl.Key(i);
      SeekFacts(val, lastidx, tmpl.Key(i), idx, low);
      if i + 1 < |ps| { StrictNext(ps, i); }
      lastidx := low;
      if idx >= 0 {
        var same := SameValue(tmpl, i, val, idx);
        if !same { res := false; }
      } else {
        res := false;
      }
      i := i + 1;
    }
    AgreesIff(val, tmpl);
  }

  ghost predicate Agrees(h: HStore, p: Pair)
    requires h.Layout()
  {
    Lookup(Contents(h), p.key) == Some(p.val)
  }

  lemma {:induction false} StrictNext(ps: seq<Pair>, i: nat)
    requires StrictKeys(ps) && i + 1 < |ps|
    ensures KeyCmp(ps[i].key, ps[i + 1].key) < 0
  {
  }

  lemma {:induction false} AgreesIff(val: HStore, tmpl: HStore)
    requires val.Canonical() && tmpl.Canonical()
    ensures (forall j :: 0 <= j < |tmpl.Decode()| ==> Agrees(val, tmpl.Decode()[j]))
       <==> forall k :: k in Contents(tmpl) ==> k in Contents(val) && Contents(val)[k] == Contents(tmpl)[k]
  {
    hide HStore.Layout, HStore.NullsTidy, HStore.Decode, MapOf, StrictKeys, KeyCmp;
    var ps := tmpl.Decode();
    forall j | 0 <= j < |ps| ensures ps[j].key in Contents(tmpl) && Contents(tmpl)[ps[j].key] == ps[j].val {
      MapOfAt(ps, j);
    }
    forall k | k in Contents(tmpl) ensures exists j :: 0 <= j < |ps| && ps[j].key == k {
      MapOfKeys(ps, k);
    }
  }

  /** Null against null, or the same bytes. */
  method SameValue(g: HStore, i: int, h: HStore, j: int) returns (same: bool)
    requires g.Layout() && h.Layout() && 0 <= i < |g.entries| / 2 && 0 <= j < |h.entries| / 2
    ensures same <==> g.PairAt(i).val == h.PairAt(j).val
  {
    hide HStore.Layout, StrCmp, IsNull;
    var nullval := IsNull(g.entries[2 * i + 1]);
    if nullval != IsNull(h.entries[2 * j + 1]) {
      return false;
    }
    SameText(g.Text(2 * i + 1), h.Text(2 * j + 1));
    return nullval || (|g.Text(2 * i + 1)| == |h.Text(2 * j + 1)| && StrCmp(g.Text(2 * i + 1), h.Text(2 * j + 1)) == 0);
  }

  // ------------------------------------------------------------ slices

  lemma {:induction false} MapSnoc(ps: seq<Pair>, p: Pair, k: string)
    requires StrictKeys(ps + [p])
    ensures Lookup(MapOf(ps + [p]), k) == if k == p.key then Some(p.val) else Lookup(MapOf(ps), k)
  {
    hide MapOf, StrictKeys, KeyCmp;
    var all := ps + [p];
    StrictPrefix(all, |ps|);
    assert all[..|ps|] == ps;
    MapOfKeys(all, k);
    MapOfKeys(ps, k);
    MapOfAt(all, |ps|);
    if i :| 0 <= i < |ps| && ps[i].key == k {
      MapOfAt(ps, i);
      MapOfAt(all, i);
      assert all[i] == ps[i];
    }
  }

  lemma {:induction false} StrictPrefix(ps: seq<Pair>, n: nat)
    requires StrictKeys(ps) && n <= |ps|
    ensures StrictKeys(ps[..n])
  {
    hide KeyCmp;
  }

  /** What the slice has collected after the first i keys. */
  ghost predicate Sliced(h: HStore, kp: seq<Pairs>, i: int, out: seq<Pairs>)
    requires h.Layout() && 0 <= i <= |kp|
  {
    StrictKeys(AbsAll(out))
    && (out != [] && i < |kp| ==> KeyCmp(out[|out| - 1].key, kp[i].key) < 0)
    && forall k :: Lookup(MapOf(AbsAll(out)), k) == if HasKey(kp[..i], k) then Lookup(Contents(h), k) else None
  }

  lemma {:induction false} SlicedSkip(h: HStore, kp: seq<Pairs>, i: nat, out: seq<Pairs>)
    requires h.Layout() && i < |kp| && StrictKeys(AbsAll(kp)) && Sliced(h, kp, i, out)
    requires Lookup(Contents(h), kp[i].key) == None
    ensures Sliced(h, kp, i + 1, out)
  {
    hide HStore.Layout, Contents, StrictKeys, AbsAll, KeyCmp, MapOf;
    assert kp[..i + 1] == kp[..i] + [kp[i]];
    KeyAdded(kp[..i], kp[i]);
    if i + 1 < |kp| && out != [] {
      NextKey(kp, i);
      KeyTrans(out[|out| - 1].key, kp[i].key, kp[i + 1].key);
    }
  }

  lemma {:induction false} KeyTrans(a: string, b: string, c: string)
    requires KeyCmp(a, b) < 0 && KeyCmp(b, c) < 0
    ensures KeyCmp(a, c) < 0
  {
    KeyCmpTotal();
  }

  lemma {:induction false} SlicedTake(h: HStore, kp: seq<Pairs>, i: nat, out: seq<Pairs>, p: Pairs)
    requires h.Layout() && i < |kp| && StrictKeys(AbsAll(kp)) && Sliced(h, kp, i, out)
    requires p.key == kp[i].key && Lookup(Contents(h), p.key) == Some(p.Abs().val)
    ensures Sliced(h, kp, i + 1, out + [p])
  {
    hide HStore.Layout, Contents, StrictKeys, KeyCmp, MapOf;
    assert AbsAll(out + [p]) == AbsAll(out) + [p.Abs()];
    hide AbsAll;
    StrictAppend(AbsAll(out), p.Abs());
    NextKey(kp, i);
    assert kp[..i + 1] == kp[..i] + [kp[i]];
    KeyAdded(kp[..i], kp[i]);
    forall k ensures Lookup(MapOf(AbsAll(out + [p])), k)
        == if HasKey(kp[..i + 1], k) then Lookup(Contents(h), k) else None {
      MapSnoc(AbsAll(out), p.Abs(), k);
    }
  }

  method SliceLoop(h: HStore, kp: seq<Pairs>) returns (out: seq<Pairs>, bufsiz: nat)
    requires h.Canonical() && StrictKeys(AbsAll(kp))
    ensures Sliced(h, kp, |kp|, out) && bufsiz == BytesOf(out)
    ensures |out| <= |h.entries| / 2 && bufsiz <= |h.str|
  {
    hide HStore.Layout, HStore.NullsTidy, HStore.Decode, MapOf, StrictKeys, Splits, KeyCmp, Contents, AbsAll, BytesOf,
      Sliced, AllBefore, Start;
    var lastidx := 0;
    out, bufsiz := [], 0;
    SlicedStart(h, kp);
    StartBound(h, 0);
    for i := 0 to |kp|
      invariant 0 <= lastidx <= |h.entries| / 2 && bufsiz == BytesOf(out) && Sliced(h, kp, i, out)
      invariant i < |kp| ==> AllBefore(h.Decode(), lastidx, kp[i].key)
      invariant |out| <= lastidx && bufsiz <= Start(h, lastidx) <= |h.str|
    {
      var idx, low := FindKey(h, lastidx, kp[i].key);
      SeekFacts(h, lastidx, kp[i].key, idx, low);
      NextKey(kp, i);
      StartsRise(h, lastidx, low);
      if idx >= 0 { ItemSpan(h, idx); StartsRise(h, lastidx, idx); }
      lastidx := low;
      if idx >= 0 {
        var p := Pairs(kp[i].key, h.Text(2 * idx + 1), IsNull(h.entries[2 * idx + 1]), false);
        NullIsEmpty(h, idx);
        BytesSnoc(out, p);
        SlicedTake(h, kp, i, out, p);
        bufsiz := bufsiz + |kp[i].key|;
        bufsiz := bufsiz + |h.Text(2 * idx + 1)|;
        out := out + [p];
      } else {
        SlicedSkip(h, kp, i, out);
      }
    }
  }

  lemma {:induction false} SlicedStart(h: HStore, kp: seq<Pairs>)
    requires h.Layout()
    ensures Sliced(h, kp, 0, []) && BytesOf([]) == 0
    ensures kp != [] ==> AllBefore(h.Decode(), 0, kp[0].key)
  {
    hide HStore.Layout;
    assert AbsAll([]) == [];
  }

  lemma {:induction false} StartBound(h: HStore, i: nat)
    requires h.Layout() && i <= |h.entries| / 2
    ensures 0 <= Start(h, i) <= |h.str| && Start(h, 0) == 0
  {
    if i > 0 { PairSpan(h, i - 1); }
  }

  lemma {:induction false} StartsRise(h: HStore, i: nat, j: nat)
    requires h.Layout() && i <= j <= |h.entries| / 2
    ensures 0 <= Start(h, i) <= Start(h, j) <= |h.str|
  {
    hide EndPos, IsFirst;
    StartBound(h, i);
    StartBound(h, j);
    if i > 0 { assert EndPos(h.entries[2 * i - 1]) <= EndPos(h.entries[2 * j - 1]); }
  }

  /** Pair i as HS_COPYITEM finds it: key and value side by side. */
  lemma {:induction false} ItemSpan(h: HStore, i: nat)
    requires h.Canonical() && i < |h.entries| / 2
    ensures var klen, vlen := h.Len(2 * i), h.Len(2 * i + 1);
      && 0 <= h.Off(2 * i) == Start(h, i) && Start(h, i + 1) == Start(h, i) + klen + vlen <= |h.str|
      && 0 <= klen == |h.PairAt(i).key| && 0 <= vlen == |h.Text(2 * i + 1)|
      && h.PairAt(i).Text() == h.str[h.Off(2 * i)..h.Off(2 * i) + klen + vlen]
      && IsNull(h.entries[2 * i + 1]) == h.PairAt(i).val.None?
  {
    hide EndPos, IsNull, IsFirst, HStore.Decode, HStore.NullsTidy, HStore.Layout, Start;
    PairSpan(h, i);
    PairText(h, i);
  }

  lemma {:induction false} NullIsEmpty(h: HStore, i: nat)
    requires h.Canonical() && i < |h.entries| / 2
    ensures IsNull(h.entries[2 * i + 1]) ==> h.Text(2 * i + 1) == ""
  {
    hide EndPos, IsNull, HStore.Decode;
    PairSpan(h, i);
    NullSpan(h, i);
  }

  /** `slice`: the pairs of h whose keys are asked for, as an hstore. */
  method SliceToHstore(h: HStore, keys: seq<Option<string>>) returns (r: Result<HStore>)
    requires h.Canonical()
    ensures r.TooBig? <==> |keys| > MAX_KEYS
    ensures r.Ok? ==> r.value.Canonical()
    ensures r.Ok? ==>
      forall k :: Lookup(Contents(r.value), k) == if Sought(keys, k) then Lookup(Contents(h), k) else None
  {
    hide HStore.Layout, HStore.NullsTidy, HStore.Decode, StrictKeys, KeyCmp, Contents, AbsAll, BytesOf, Fits, Pack,
      Chars, Sliced, HStore.Canonical;
    var pairs := ArrayToPairs(keys);
    if pairs.TooBig? {
      return TooBig;
    }
    var kp := pairs.value;
    var out: seq<Pairs>, bufsiz := [], 0;
    CanonicalLayout(h);
    SlicedStart(h, kp);
    if |kp| != 0 {
      out, bufsiz := SliceLoop(h, kp);
    }
    BytesAreChars(out);
    SliceFits(h, out);
    r := PackPairs(out, bufsiz);
    SlicePacked(h, kp, keys, out);
  }

  lemma {:induction false} CanonicalLayout(h: HStore)
    requires h.Canonical()
    ensures h.Layout() && StrictKeys(h.Decode())
  {
  }

  lemma {:induction false} SliceFits(h: HStore, out: seq<Pairs>)
    requires h.Layout() && |out| <= |h.entries| / 2 && |Chars(AbsAll(out))| <= |h.str|
    ensures Fits(AbsAll(out))
  {
    hide AbsAll, Chars;
  }

  lemma {:induction false} SlicePacked(h: HStore, kp: seq<Pairs>, keys: seq<Option<string>>, out: seq<Pairs>)
    requires h.Layout() && Sliced(h, kp, |kp|, out) && Fits(AbsAll(out))
    requires forall k :: HasKey(kp, k) <==> Sought(keys, k)
    ensures var r := Pack(AbsAll(out));
      r.Canonical() && forall k :: Lookup(Contents(r), k) == if Sought(keys, k) then Lookup(Contents(h), k) else None
  {
    hide HStore.Layout, HStore.Decode, StrictKeys, AbsAll, Fits, Pack, KeyCmp, MapOf, HasKey, Sought;
    DecodePack(AbsAll(out));
    assert kp[..|kp|] == kp;
  }
}
