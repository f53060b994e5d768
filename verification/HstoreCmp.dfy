/** `hstore_cmp`: the btree order on packed hstores. */
module HstoreCmp {
  import opened Order
  import opened HstoreLayout
  import opened HstoreOps

  /** What the comparison looks at, in the order it looks. */
  datatype Rank = Rank(filled: int, str: string, count: int, keys: seq<int>)

  /** End position and null flag of an entry; the first-flag plays no part. */
  function EntryKey(e: int): int {
    2 * EndPos(e) + if IsNull(e) then 1 else 0
  }

  ghost function KeysOf(entries: seq<int>): (ks: seq<int>)
    ensures |ks| == |entries| && forall i :: 0 <= i < |ks| ==> ks[i] == EntryKey(entries[i])
  {
    if entries == [] then [] else [EntryKey(entries[0])] + KeysOf(entries[1..])
  }

  ghost function RankOf(h: HStore): Rank {
    Rank(if h.entries == [] then 0 else 1, h.str, |h.entries| / 2, KeysOf(h.entries))
  }

  function SeqCmp(a: seq<int>, b: seq<int>): int {
    Lex(a, b, IntCmp)
  }

  function RankCmp(a: Rank, b: Rank): int {
    if a.filled != b.filled then IntCmp(a.filled, b.filled)
    else if StrCmp(a.str, b.str) != 0 then StrCmp(a.str, b.str)
    else if a.count != b.count then IntCmp(a.count, b.count)
    else SeqCmp(a.keys, b.keys)
  }

  lemma {:induction false} SeqCmpTotal()
    ensures TotalOrder(SeqCmp)
  {
    forall a, b ensures SeqCmp(a, b) == 0 <==> a == b { LexZero(a, b, IntCmp); }
    forall a, b ensures SeqCmp(a, b) < 0 <==> SeqCmp(b, a) > 0 { LexFlip(a, b, IntCmp); }
    forall a, b, c | SeqCmp(a, b) < 0 && SeqCmp(b, c) < 0 ensures SeqCmp(a, c) < 0 { LexTrans(a, b, c, IntCmp); }
  }

  /** The comparison is a total order on what it looks at. */
  lemma {:induction false} RankCmpTotal()
    ensures TotalOrder(RankCmp)
  {
    hide StrCmp, SeqCmp;
    StrCmpTotal();
    SeqCmpTotal();
  }

  // ------------------------------------------- what the order is, in the open

  /** Entry for entry the same up to n, flags of the first entry aside. */
  ghost predicate SameEnds(e: seq<int>, f: seq<int>, n: int) {
    0 <= n <= |e| && n <= |f|
    && forall i :: 0 <= i < n ==> EndPos(e[i]) == EndPos(f[i]) && IsNull(e[i]) == IsNull(f[i])
  }

  /** At the first entry that differs, e ends earlier, or is not null where f is. */
  ghost predicate EntriesBefore(e: seq<int>, f: seq<int>) {
    exists i :: 0 <= i < |e| && i < |f| && SameEnds(e, f, i)
      && (EndPos(e[i]) < EndPos(f[i]) || (EndPos(e[i]) == EndPos(f[i]) && !IsNull(e[i]) && IsNull(f[i])))
  }

  /** Which value comes first: an empty one; then the one with the lower text; then
      the one with fewer pairs; then the one whose entries come first. */
  ghost predicate Before(h: HStore, g: HStore) {
    if h.entries == [] || g.entries == [] then h.entries == [] && g.entries != []
    else if h.str != g.str then TextBefore(h.str, g.str)
    else if |h.entries| != |g.entries| then |h.entries| < |g.entries|
    else EntriesBefore(h.entries, g.entries)
  }

  lemma {:induction false} KeyOrder(e: int, f: int)
    ensures IntCmp(EntryKey(e), EntryKey(f)) < 0
       <==> EndPos(e) < EndPos(f) || (EndPos(e) == EndPos(f) && !IsNull(e) && IsNull(f))
    ensures EntryKey(e) == EntryKey(f) <==> EndPos(e) == EndPos(f) && IsNull(e) == IsNull(f)
  {
    hide EndPos, IsNull;
  }

  lemma {:induction false} SameKeys(e: seq<int>, f: seq<int>, n: int)
    requires 0 <= n <= |e| && n <= |f|
    ensures KeysOf(e)[..n] == KeysOf(f)[..n] <==> SameEnds(e, f, n)
  {
    hide KeysOf, EndPos, IsNull, EntryKey;
    var ks, ls := KeysOf(e), KeysOf(f);
    forall i | 0 <= i < n ensures ks[i] == ls[i] <==> EndPos(e[i]) == EndPos(f[i]) && IsNull(e[i]) == IsNull(f[i]) {
      KeyOrder(e[i], f[i]);
    }
    if ks[..n] == ls[..n] {
      forall i | 0 <= i < n ensures ks[i] == ls[i] {
        assert ks[..n][i] == ls[..n][i];
      }
    }
  }

  lemma {:induction false} EntriesBelow(e: seq<int>, f: seq<int>)
    requires |e| == |f|
    ensures SeqCmp(KeysOf(e), KeysOf(f)) < 0 <==> EntriesBefore(e, f)
  {
    hide KeysOf, EndPos, IsNull, EntryKey, SameEnds, Lex;
    IntCmpTotal();
    var ks, ls := KeysOf(e), KeysOf(f);
    LexBelow(ks, ls, IntCmp);
    forall i | 0 <= i < |e|
      ensures LessAt(ks, ls, IntCmp, i)
         <==> SameEnds(e, f, i)
              && (EndPos(e[i]) < EndPos(f[i]) || (EndPos(e[i]) == EndPos(f[i]) && !IsNull(e[i]) && IsNull(f[i])))
    {
      SameKeys(e, f, i);
      KeyOrder(e[i], f[i]);
    }
    if i :| LessAt(ks, ls, IntCmp, i) {
      assert 0 <= i < |e|;
    }
  }

  lemma {:induction false} IntCmpTotal()
    ensures TotalOrder(IntCmp)
  {
  }

  lemma {:induction false} RankBelow(h: HStore, g: HStore)
    requires h.Layout() && g.Layout()
    ensures RankCmp(RankOf(h), RankOf(g)) < 0 <==> Before(h, g)
  {
    hide HStore.Layout, KeysOf, StrCmp, SeqCmp, EntriesBefore, TextBefore, EndPos, IsNull;
    Shape(h);
    Shape(g);
    StrBelow(h.str, g.str);
    SameText(h.str, g.str);
    if |h.entries| == |g.entries| {
      EntriesBelow(h.entries, g.entries);
    }
    NothingBelow();
  }

  lemma {:induction false} NothingBelow()
    ensures SeqCmp([], []) == 0 && !TextBefore("", "")
  {
  }

  /** On canonical values it tells apart exactly the values that stand for
      different maps. */
  lemma {:induction false} RankDecides(h: HStore, g: HStore)
    requires h.Canonical() && g.Canonical()
    ensures RankOf(h) == RankOf(g) <==> Contents(h) == Contents(g)
  {
    hide HStore.Layout, HStore.NullsTidy, HStore.Decode, MapOf, KeysOf;
    CanonicalUnique(h, g);
    if RankOf(h) == RankOf(g) {
      SameRank(h, g);
    }
  }

  lemma {:induction false} SameRank(h: HStore, g: HStore)
    requires h.Layout() && g.Layout() && h.str == g.str && KeysOf(h.entries) == KeysOf(g.entries)
    ensures h == g
  {
    hide KeysOf;
    forall i | 0 <= i < |h.entries| ensures h.entries[i] == g.entries[i] {
      assert KeysOf(h.entries)[i] == KeysOf(g.entries)[i];
      WordOf(h.entries[i]);
      WordOf(g.entries[i]);
    }
    assert h.entries == g.entries;
  }

  /** The btree support function. */
  method Cmp(hs1: HStore, hs2: HStore) returns (res: int)
    requires hs1.Canonical() && hs2.Canonical()
    ensures res < 0 <==> Before(hs1, hs2)
    ensures res > 0 <==> Before(hs2, hs1)
    ensures res == 0 <==> Contents(hs1) == Contents(hs2)
  {
    hide Before, HStore.Layout, HStore.NullsTidy, HStore.Decode, MapOf, KeysOf, StrCmp, SeqCmp, HStore.Canonical,
      Contents;
    RankCmpTotal();
    RankDecides(hs1, hs2);
    CanonicalLayout(hs1);
    CanonicalLayout(hs2);
    Shape(hs1);
    Shape(hs2);
    RankBelow(hs1, hs2);
    RankBelow(hs2, hs1);
    var hcount1, hcount2 := |hs1.entries| / 2, |hs2.entries| / 2;
    if hcount1 == 0 || hcount2 == 0 {
      SameText("", "");
      SeqCmpTotal();
      return if hcount1 > 0 then 1 else if hcount2 > 0 then -1 else 0;
    }
    var len1, len2 := EndPos(hs1.entries[2 * hcount1 - 1]), EndPos(hs2.entries[2 * hcount2 - 1]);
    res := Memcmp(hs1.str, hs2.str, if len1 < len2 then len1 else len2);
    MemcmpThenLength(hs1.str, hs2.str);
    if res == 0 {
      if len1 > len2 {
        res := 1;
      } else if len1 < len2 {
        res := -1;
      } else if hcount1 > hcount2 {
        res := 1;
      } else if hcount2 > hcount1 {
        res := -1;
      } else {
        res := CmpEntries(hs1.entries, hs2.entries);
      }
    } else {
      res := if res > 0 then 1 else -1;
    }
  }

  lemma {:induction false} Shape(h: HStore)
    requires h.Layout()
    ensures |h.entries| % 2 == 0 && (h.entries == [] ==> h.str == "" && KeysOf(h.entries) == [])
    ensures h.entries != [] ==> EndPos(h.entries[|h.entries| - 1]) == |h.str|
  {
  }

  /** memcmp over n bytes. */
  function Memcmp(a: string, b: string, n: nat): int
    requires n <= |a| && n <= |b|
  {
    StrCmp(a[..n], b[..n])
  }

  /** memcmp over the common length and then the lengths is the order of strings. */
  lemma {:induction false} MemcmpThenLength(a: string, b: string)
    ensures var n := if |a| < |b| then |a| else |b|;
      && (Memcmp(a, b, n) != 0 ==> StrCmp(a, b) == Memcmp(a, b, n))
      && (Memcmp(a, b, n) == 0 ==> StrCmp(a, b) == |a| - |b|)
    decreases |a|
  {
    if a != "" && b != "" {
      var n := if |a| < |b| then |a| else |b|;
      MemcmpThenLength(a[1..], b[1..]);
      assert a[..n][1..] == a[1..][..n - 1] && b[..n][1..] == b[1..][..n - 1];
    }
  }

  /** The loop over the entry positions. */
  method CmpEntries(ent1: seq<int>, ent2: seq<int>) returns (res: int)
    requires |ent1| == |ent2|
    ensures res == SeqCmp(KeysOf(ent1), KeysOf(ent2))
  {
    hide KeysOf, EndPos, IsNull;
    var i := 0;
    while i < |ent1| && EndPos(ent1[i]) == EndPos(ent2[i]) && IsNull(ent1[i]) == IsNull(ent2[i])
      invariant 0 <= i <= |ent1|
      invariant KeysOf(ent1)[..i] == KeysOf(ent2)[..i]
    {
      i := i + 1;
    }
    FirstDifference(KeysOf(ent1), KeysOf(ent2), i);
    res := 0;
    if i < |ent1| {
      if EndPos(ent1[i]) < EndPos(ent2[i]) {
        res := -1;
      } else if EndPos(ent1[i]) > EndPos(ent2[i]) {
        res := 1;
      } else if IsNull(ent1[i]) {
        res := 1;
      } else if IsNull(ent2[i]) {
        res := -1;
      }
    }
  }

  lemma {:induction false} FirstDifference(a: seq<int>, b: seq<int>, i: nat)
    requires i <= |a| == |b| && a[..i] == b[..i] && (i < |a| ==> a[i] != b[i])
    ensures SeqCmp(a, b) == if i == |a| then 0 else IntCmp(a[i], b[i])
    decreases i
  {
    if i > 0 {
      assert a[0] == a[..i][0] && b[0] == b[..i][0];
      assert a[1..][..i - 1] == a[..i][1..] && b[1..][..i - 1] == b[..i][1..];
      FirstDifference(a[1..], b[1..], i - 1);
    }
  }
}
