/** The packed form of an hstore: two 32-bit entries per pair, each holding the
    end position of a key or value in one string buffer, with flag bits for the
    first entry and for null values. */
module HstoreLayout {
  import opened Common
  import opened Order

  /** One key with its value; a null value is None. */
  datatype Pair = Pair(key: string, val: Option<string>) {
    function Text(): string {
      if val.Some? then key + val.value else key
    }
  }

  const ISFIRST := 0x8000_0000
  const ISNULL := 0x4000_0000
  const NEWVERSION := 0x8000_0000
  const COUNT_LIMIT := 0x1000_0000
  const UINT32_LIMIT := 0x1_0000_0000

  predicate IsFirst(e: int) { e / ISFIRST % 2 == 1 }

  predicate IsNull(e: int) { e / ISNULL % 2 == 1 }

  function EndPos(e: int): int { e % ISNULL }

  /** Bytes of a value with that many pairs and that much text. */
  function CalcDataSize(count: int, len: int): int { count * 2 * 4 + 8 + len }

  datatype HStore = HStore(varsize: int, size: int, entries: seq<int>, str: string) {

    function Count(): int { size % COUNT_LIMIT }

    /** HSE_OFF: where the text of entry i starts. */
    function Off(i: int): int
      requires 0 <= i < |entries| && (i == 0 ==> IsFirst(entries[0]))
    {
      if IsFirst(entries[i]) then 0 else EndPos(entries[i - 1])
    }

    /** HSE_LEN */
    function Len(i: int): int
      requires 0 <= i < |entries| && (i == 0 ==> IsFirst(entries[0]))
    {
      if IsFirst(entries[i]) then EndPos(entries[i]) else EndPos(entries[i]) - EndPos(entries[i - 1])
    }

    /** What every reader relies on: flags, non-decreasing end positions, exact size. */
    ghost predicate Layout() {
      && size == |entries| / 2 + NEWVERSION && |entries| % 2 == 0
      && varsize == CalcDataSize(|entries| / 2, |str|) <= MAX_ALLOC
      && (forall i :: 0 <= i < |entries| ==> 0 <= entries[i] < UINT32_LIMIT && (IsFirst(entries[i]) <==> i == 0))
      && (forall i, j :: 0 <= i <= j < |entries| ==> EndPos(entries[i]) <= EndPos(entries[j]))
      && |str| == if entries == [] then 0 else EndPos(entries[|entries| - 1])
    }

    /** Bytes i: the text of entry i. */
    function Text(i: int): string
      requires Layout() && 0 <= i < |entries|
    {
      str[Off(i)..Off(i) + Len(i)]
    }

    function Key(i: int): string
      requires Layout() && 0 <= i < |entries| / 2
    {
      Text(2 * i)
    }

    function PairAt(i: int): Pair
      requires Layout() && 0 <= i < |entries| / 2
    {
      Pair(Key(i), if IsNull(entries[2 * i + 1]) then None else Some(Text(2 * i + 1)))
    }

    /** Keys are never null, and a null value occupies no bytes. */
    ghost predicate NullsTidy() {
      forall i {:trigger entries[2 * i]} :: 0 <= i < |entries| / 2 ==>
        !IsNull(entries[2 * i])
        && (IsNull(entries[2 * i + 1]) ==> EndPos(entries[2 * i + 1]) == EndPos(entries[2 * i]))
    }

    /** The pairs the value stands for, in stored order. */
    ghost function Decode(): (ps: seq<Pair>)
      requires Layout()
      ensures |ps| == |entries| / 2
      ensures forall i :: 0 <= i < |ps| ==> ps[i] == PairAt(i)
    {
      seq(|entries| / 2, i requires 0 <= i < |entries| / 2 => PairAt(i))
    }

    /** The form every operation promises: strictly increasing keys besides. */
    ghost predicate Canonical() {
      Layout() && NullsTidy() && StrictKeys(Decode())
    }
  }

  ghost predicate StrictKeys(ps: seq<Pair>) {
    forall i, j :: 0 <= i < j < |ps| ==> KeyCmp(ps[i].key, ps[j].key) < 0
  }

  // ------------------------------------------------------------- packing

  ghost function Chars(ps: seq<Pair>): string {
    if ps == [] then "" else Chars(ps[..|ps| - 1]) + ps[|ps| - 1].Text()
  }

  /** The entry words before the first one is flagged. */
  ghost function Words(ps: seq<Pair>): (w: seq<int>)
    ensures |w| == 2 * |ps|
  {
    if ps == [] then []
    else
      var init, p := ps[..|ps| - 1], ps[|ps| - 1];
      Words(init) + [|Chars(init)| + |p.key|, |Chars(ps)| + if p.val.None? then ISNULL else 0]
  }

  ghost function Flagged(w: seq<int>): seq<int> {
    if w == [] then [] else w[0 := w[0] + ISFIRST]
  }

  ghost function Pack(ps: seq<Pair>): HStore {
    HStore(CalcDataSize(|ps|, |Chars(ps)|), |ps| + NEWVERSION, Flagged(Words(ps)), Chars(ps))
  }

  ghost predicate Fits(ps: seq<Pair>) {
    CalcDataSize(|ps|, |Chars(ps)|) <= MAX_ALLOC
  }

  lemma {:induction false} CharsPrefix(ps: seq<Pair>, i: nat)
    requires i <= |ps|
    ensures Chars(ps[..i]) <= Chars(ps)
  {
    if i < |ps| {
      var init := ps[..|ps| - 1];
      CharsPrefix(init, i);
      assert init[..i] == ps[..i];
    } else {
      assert ps[..i] == ps;
    }
  }

  /** The two words that pair p adds behind the pairs ps. */
  ghost function PairWords(ps: seq<Pair>, p: Pair): seq<int> {
    [|Chars(ps)| + |p.key|, |Chars(ps)| + |p.Text()| + if p.val.None? then ISNULL else 0]
  }

  lemma {:induction false} Snoc(ps: seq<Pair>, p: Pair)
    ensures Chars(ps + [p]) == Chars(ps) + p.Text()
    ensures Words(ps + [p]) == Words(ps) + PairWords(ps, p)
  {
    assert (ps + [p])[..|ps|] == ps;
  }

  /** Entry i of the packed words, and the text it delimits. */
  lemma {:induction false} WordsAt(ps: seq<Pair>, i: nat)
    requires i < |ps|
    ensures Words(ps)[2 * i] == |Chars(ps[..i])| + |ps[i].key|
    ensures Words(ps)[2 * i + 1] == |Chars(ps[..i + 1])| + if ps[i].val.None? then ISNULL else 0
    ensures Chars(ps[..i + 1]) == Chars(ps[..i]) + ps[i].Text()
  {
    hide Words, Chars;
    var init, last := ps[..|ps| - 1], ps[|ps| - 1];
    Snoc(init, last);
    assert ps == init + [last];
    if i < |ps| - 1 {
      WordsAt(init, i);
      assert init[..i] == ps[..i] && init[..i + 1] == ps[..i + 1];
    } else {
      assert ps[..i] == init && ps[..i + 1] == ps;
    }
  }

  /** Where pair i starts. */
  ghost function StartOf(ps: seq<Pair>, i: int): nat
    requires 0 <= i <= |ps|
  {
    |Chars(ps[..i])|
  }

  lemma {:induction false} StartsGrow(ps: seq<Pair>, i: nat, j: nat)
    requires i <= j <= |ps|
    ensures StartOf(ps, i) <= StartOf(ps, j) <= |Chars(ps)|
  {
    CharsPrefix(ps, j);
    CharsPrefix(ps[..j], i);
    assert ps[..j][..i] == ps[..i];
  }

  /** An entry word: a position below 2^30 and the two flag bits. */
  ghost function Word(pos: int, nul: bool, first: bool): int {
    pos + (if nul then ISNULL else 0) + if first then ISFIRST else 0
  }

  lemma {:induction false} WordBits(pos: int, nul: bool, first: bool)
    requires 0 <= pos < ISNULL
    ensures var e := Word(pos, nul, first);
      0 <= e < UINT32_LIMIT && IsFirst(e) == first && IsNull(e) == nul && EndPos(e) == pos
  {
  }

  lemma {:induction false} PackedWords(ps: seq<Pair>, i: nat)
    requires i < |ps|
    ensures |Pack(ps).entries| == 2 * |ps|
    ensures Pack(ps).entries[2 * i] == Word(StartOf(ps, i) + |ps[i].key|, false, i == 0)
    ensures Pack(ps).entries[2 * i + 1] == Word(StartOf(ps, i + 1), ps[i].val.None?, false)
    ensures StartOf(ps, i) + |ps[i].key| <= StartOf(ps, i + 1) <= |Chars(ps)|
    ensures ps[i].val.None? ==> StartOf(ps, i) + |ps[i].key| == StartOf(ps, i + 1)
  {
    hide Words, Chars;
    WordsAt(ps, i);
    StartsGrow(ps, i + 1, |ps|);
  }

  /** The packed entries of pair i, decoded. */
  lemma {:induction false} PackedEntries(ps: seq<Pair>, i: nat)
    requires Fits(ps) && i < |ps|
    ensures |Pack(ps).entries| == 2 * |ps|
    ensures var e := Pack(ps).entries[2 * i];
      0 <= e < UINT32_LIMIT && IsFirst(e) == (i == 0) && !IsNull(e) && EndPos(e) == StartOf(ps, i) + |ps[i].key|
    ensures var e := Pack(ps).entries[2 * i + 1];
      0 <= e < UINT32_LIMIT && !IsFirst(e) && IsNull(e) == ps[i].val.None? && EndPos(e) == StartOf(ps, i + 1)
    ensures StartOf(ps, i) + |ps[i].key| <= StartOf(ps, i + 1) <= |Chars(ps)|
    ensures ps[i].val.None? ==> StartOf(ps, i) + |ps[i].key| == StartOf(ps, i + 1)
  {
    hide Pack, Word, IsFirst, IsNull, EndPos, Chars;
    PackedWords(ps, i);
    WordBits(StartOf(ps, i) + |ps[i].key|, false, i == 0);
    WordBits(StartOf(ps, i + 1), ps[i].val.None?, false);
  }

  ghost function EndOfEntry(ps: seq<Pair>, k: int): int
    requires 0 <= k < 2 * |ps|
  {
    if k % 2 == 0 then StartOf(ps, k / 2) + |ps[k / 2].key| else StartOf(ps, k / 2 + 1)
  }

  lemma {:induction false} PackedEntry(ps: seq<Pair>, k: nat)
    requires Fits(ps) && k < 2 * |ps|
    ensures |Pack(ps).entries| == 2 * |ps|
    ensures var e := Pack(ps).entries[k];
      0 <= e < UINT32_LIMIT && (IsFirst(e) <==> k == 0) && EndPos(e) == EndOfEntry(ps, k)
  {
    hide Pack, IsFirst, IsNull, EndPos, Fits, StartOf;
    var i := k / 2;
    PackedEntries(ps, i);
    if k % 2 == 0 { assert k == 2 * i; } else { assert k == 2 * i + 1; }
  }

  lemma {:induction false} EntriesGrow(ps: seq<Pair>, j: nat, k: nat)
    requires Fits(ps) && j <= k < 2 * |ps|
    ensures EndOfEntry(ps, j) <= EndOfEntry(ps, k)
  {
    hide Pack, IsFirst, IsNull, EndPos, Fits, StartOf;
    PackedEntries(ps, j / 2);
    PackedEntries(ps, k / 2);
    if j / 2 < k / 2 {
      StartsGrow(ps, j / 2 + 1, k / 2);
    }
  }

  lemma {:induction false} PackLayout(ps: seq<Pair>)
    requires Fits(ps)
    ensures Pack(ps).Layout() && |Pack(ps).entries| == 2 * |ps|
  {
    var h := Pack(ps);
    assert |h.entries| == 2 * |ps|;
    hide Words, Flagged, IsFirst, IsNull, EndPos, EndOfEntry, Chars;
    forall k | 0 <= k < |h.entries|
      ensures 0 <= h.entries[k] < UINT32_LIMIT && (IsFirst(h.entries[k]) <==> k == 0)
      ensures EndPos(h.entries[k]) == EndOfEntry(ps, k) {
      PackedEntry(ps, k);
    }
    forall j, k | 0 <= j <= k < |h.entries| ensures EndPos(h.entries[j]) <= EndPos(h.entries[k]) {
      EntriesGrow(ps, j, k);
    }
    LastEnd(ps);
  }

  lemma {:induction false} LastEnd(ps: seq<Pair>)
    ensures |Chars(ps)| == if ps == [] then 0 else EndOfEntry(ps, 2 * |ps| - 1)
  {
    assert ps[..|ps|] == ps;
  }

  lemma {:induction false} PackNullsTidy(ps: seq<Pair>)
    requires Fits(ps)
    ensures Pack(ps).NullsTidy()
  {
    hide Pack, IsFirst, IsNull, EndPos, StartOf;
    var h := Pack(ps);
    forall i | 0 <= i < |h.entries| / 2
      ensures !IsNull(h.entries[2 * i])
      ensures IsNull(h.entries[2 * i + 1]) ==> EndPos(h.entries[2 * i + 1]) == EndPos(h.entries[2 * i]) {
      PackedSize(ps);
      PackedEntries(ps, i);
    }
  }

  lemma {:induction false} PackedSize(ps: seq<Pair>)
    ensures |Pack(ps).entries| == 2 * |ps| && Pack(ps).str == Chars(ps)
  {
  }

  lemma {:induction false} PackedText(ps: seq<Pair>, i: nat)
    requires i < |ps|
    ensures StartOf(ps, i) + |ps[i].key| <= StartOf(ps, i + 1) <= |Chars(ps)|
    ensures Chars(ps)[StartOf(ps, i)..StartOf(ps, i) + |ps[i].key|] == ps[i].key
    ensures ps[i].val.Some? ==> Chars(ps)[StartOf(ps, i) + |ps[i].key|..StartOf(ps, i + 1)] == ps[i].val.value
  {
    hide Words, Chars;
    WordsAt(ps, i);
    CharsPrefix(ps, i + 1);
    var tail := if ps[i].val.Some? then ps[i].val.value else "";
    assert Chars(ps[..i]) + ps[i].Text() == Chars(ps[..i]) + ps[i].key + tail;
    Slices(Chars(ps), Chars(ps[..i]), ps[i].key, tail);
  }

  lemma {:induction false} Slices(whole: string, before: string, x: string, y: string)
    requires before + x + y <= whole
    ensures whole[|before|..|before| + |x|] == x
    ensures whole[|before| + |x|..|before| + |x| + |y|] == y
  {
    assert whole[..|before| + |x| + |y|] == before + x + y;
  }

  lemma {:induction false} PackedPair(ps: seq<Pair>, i: nat)
    requires Fits(ps) && i < |ps| && Pack(ps).Layout() && |Pack(ps).entries| == 2 * |ps|
    ensures Pack(ps).PairAt(i) == ps[i]
  {
    hide Pack, Chars, HStore.Layout, HStore.Off, HStore.Len, IsNull, StartOf, Fits;
    PackedSize(ps);
    PackedText(ps, i);
    PackedOffsets(ps, i);
  }

  lemma {:induction false} PackedOffsets(ps: seq<Pair>, i: nat)
    requires Fits(ps) && i < |ps| && Pack(ps).Layout() && |Pack(ps).entries| == 2 * |ps|
    ensures Pack(ps).Off(2 * i) == StartOf(ps, i) && Pack(ps).Len(2 * i) == |ps[i].key|
    ensures Pack(ps).Off(2 * i + 1) == StartOf(ps, i) + |ps[i].key|
    ensures Pack(ps).Len(2 * i + 1) == StartOf(ps, i + 1) - StartOf(ps, i) - |ps[i].key|
    ensures IsNull(Pack(ps).entries[2 * i + 1]) == ps[i].val.None?
  {
    hide Pack, IsFirst, IsNull, EndPos, HStore.Layout;
    PackedEntries(ps, i);
    if i > 0 {
      PackedEntries(ps, i - 1);
      assert 2 * (i - 1) + 1 == 2 * i - 1;
    } else {
      hide *;
      assert StartOf(ps, 0) == 0 by { StartsAtZero(ps); }
    }
  }

  lemma {:induction false} StartsAtZero(ps: seq<Pair>)
    ensures StartOf(ps, 0) == 0
  {
  }

  /** Unpacking what was packed gives the pairs back, and packing sorted pairs
      gives a canonical value. */
  lemma {:induction false} DecodePack(ps: seq<Pair>)
    requires Fits(ps)
    ensures Pack(ps).Layout() && Pack(ps).Decode() == ps
    ensures StrictKeys(ps) ==> Pack(ps).Canonical()
  {
    hide Pack, HStore.Layout, HStore.Decode, HStore.PairAt, HStore.NullsTidy, StrictKeys;
    PackLayout(ps);
    PackNullsTidy(ps);
    var h := Pack(ps);
    forall i | 0 <= i < |ps| ensures h.Decode()[i] == ps[i] {
      PackedPair(ps, i);
    }
    assert h.Decode() == ps;
  }

  // ---------------------------------------------- one form for each map

  ghost function Start(h: HStore, i: int): int
    requires 0 <= i <= |h.entries| / 2
  {
    if i == 0 then 0 else EndPos(h.entries[2 * i - 1])
  }

  lemma {:induction false} WordOf(e: int)
    requires 0 <= e < UINT32_LIMIT
    ensures e == Word(EndPos(e), IsNull(e), IsFirst(e))
  {
  }

  /** Pair i of a well laid out value sits between consecutive starts. */
  lemma {:induction false} PairSpan(h: HStore, i: nat)
    requires h.Layout() && i < |h.entries| / 2
    ensures h.Off(2 * i) == Start(h, i) && h.Len(2 * i) == EndPos(h.entries[2 * i]) - Start(h, i)
    ensures h.Off(2 * i + 1) == EndPos(h.entries[2 * i])
    ensures h.Len(2 * i + 1) == Start(h, i + 1) - EndPos(h.entries[2 * i])
    ensures 0 <= Start(h, i) <= EndPos(h.entries[2 * i]) <= Start(h, i + 1) <= |h.str|
  {
    hide IsFirst, EndPos;
    var k := 2 * i;
    assert IsFirst(h.entries[k]) <==> k == 0;
    assert !IsFirst(h.entries[k + 1]);
    assert EndPos(h.entries[k]) <= EndPos(h.entries[k + 1]);
    assert EndPos(h.entries[k + 1]) <= EndPos(h.entries[|h.entries| - 1]);
    if i > 0 { assert EndPos(h.entries[k - 1]) <= EndPos(h.entries[k]); }
    NonNegativeEnd(h.entries[0]);
  }

  lemma {:induction false} NonNegativeEnd(e: int)
    ensures 0 <= EndPos(e) < ISNULL
  {
  }

  lemma {:induction false} PairText(h: HStore, i: nat)
    requires h.Layout() && h.NullsTidy() && i < |h.entries| / 2
    ensures Start(h, i) <= Start(h, i + 1) <= |h.str| && 0 <= Start(h, i)
    ensures h.PairAt(i).Text() == h.str[Start(h, i)..Start(h, i + 1)]
    ensures Start(h, i) + |h.PairAt(i).key| == EndPos(h.entries[2 * i])
    ensures h.PairAt(i).val.None? == IsNull(h.entries[2 * i + 1])
    ensures !IsNull(h.entries[2 * i])
  {
    hide IsFirst, IsNull, EndPos, HStore.Layout, HStore.Off, HStore.Len, Start, HStore.NullsTidy;
    PairSpan(h, i);
    NullSpan(h, i);
    var a, b, c := Start(h, i), EndPos(h.entries[2 * i]), Start(h, i + 1);
    assert h.Text(2 * i) == h.str[a..b] && h.Text(2 * i + 1) == h.str[b..c];
    hide HStore.Text;
    Joined(h.str, a, b, c);
    Emptied(h.str, a, b);
  }

  lemma {:induction false} Emptied(s: string, a: int, b: int)
    requires 0 <= a <= b <= |s|
    ensures s[a..b] + "" == s[a..b]
  {
  }

  lemma {:induction false} NullSpan(h: HStore, i: nat)
    requires h.NullsTidy() && i < |h.entries| / 2
    ensures !IsNull(h.entries[2 * i])
    ensures IsNull(h.entries[2 * i + 1]) ==> EndPos(h.entries[2 * i]) == Start(h, i + 1)
  {
  }

  lemma {:induction false} Joined(s: string, a: int, b: int, c: int)
    requires 0 <= a <= b <= c <= |s|
    ensures s[a..c] == s[a..b] + s[b..c] && (b == c ==> s[a..c] == s[a..b])
  {
  }

  lemma {:induction false} TwoMore(w: seq<int>, v: seq<int>, e: seq<int>, i: nat)
    requires i > 0 && |w| == 2 * (i - 1) && |v| == 2 && |e| >= 2 * i
    requires forall k :: 0 <= k < |w| ==> w[k] == e[k] - if k == 0 then ISFIRST else 0
    requires v[0] == e[2 * i - 2] - if i == 1 then ISFIRST else 0
    requires v[1] == e[2 * i - 1]
    ensures forall k :: 0 <= k < 2 * i ==> (w + v)[k] == e[k] - if k == 0 then ISFIRST else 0
  {
  }

  lemma {:induction false} PackUpTo(h: HStore, i: nat)
    requires h.Layout() && h.NullsTidy() && i <= |h.entries| / 2
    ensures 0 <= Start(h, i) <= |h.str| && Chars(h.Decode()[..i]) == h.str[..Start(h, i)]
    ensures forall k :: 0 <= k < 2 * i ==>
      Words(h.Decode()[..i])[k] == h.entries[k] - if k == 0 then ISFIRST else 0
  {
    hide IsFirst, IsNull, EndPos, HStore.Layout, HStore.NullsTidy, HStore.Decode, HStore.PairAt, Words, Chars, Word;
    var ps := h.Decode();
    if i > 0 {
      PackUpTo(h, i - 1);
      var init, p := ps[..i - 1], ps[i - 1];
      assert ps[..i] == init + [p];
      Snoc(init, p);
      PairText(h, i - 1);
      assert h.str[..Start(h, i)] == h.str[..Start(h, i - 1)] + h.str[Start(h, i - 1)..Start(h, i)];
      EntryWords(h, i - 1);
      TwoMore(Words(init), PairWords(init, p), h.entries, i);
    } else {
      assert ps[..0] == [];
      EmptyPack();
    }
  }

  /** What a small value looks like in memory. */
  lemma {:induction false} PackedLook()
    ensures Pack([Pair("a", Some("1")), Pair("b", None)])
         == HStore(27, 0x8000_0002, [0x8000_0001, 2, 3, 0x4000_0003], "a1b")
  {
    var p, q := Pair("a", Some("1")), Pair("b", None);
    assert [] + [p] == [p] && [p] + [q] == [p, q];
    Snoc([], p);
    Snoc([p], q);
    assert Chars([]) == "" && Words([]) == [];
    assert Words([p]) == [1, 2];
    assert Words([p, q]) == [1, 2, 3, 0x4000_0003];
  }

  lemma {:induction false} EmptyPack()
    ensures Chars([]) == "" && Words([]) == []
  {
  }

  lemma {:induction false} EntryWords(h: HStore, i: nat)
    requires h.Layout() && h.NullsTidy() && i < |h.entries| / 2
    ensures h.entries[2 * i] == EndPos(h.entries[2 * i]) + if i == 0 then ISFIRST else 0
    ensures h.entries[2 * i + 1] == Start(h, i + 1) + if IsNull(h.entries[2 * i + 1]) then ISNULL else 0
  {
    hide IsFirst, IsNull, EndPos;
    WordOf(h.entries[2 * i]);
    WordOf(h.entries[2 * i + 1]);
    assert !IsNull(h.entries[2 * i]);
    assert IsFirst(h.entries[2 * i]) <==> i == 0;
    assert !IsFirst(h.entries[2 * i + 1]);
  }

  /** A tidy layout is nothing but the packing of its own pairs: every byte and
      every bit is determined. */
  lemma {:induction false} TidyIsPack(h: HStore)
    requires h.Layout() && h.NullsTidy()
    ensures h == Pack(h.Decode()) && Fits(h.Decode())
  {
    var n := |h.entries| / 2;
    var ps := h.Decode();
    assert ps[..n] == ps;
    hide Words, Chars, EndPos, IsFirst, IsNull, HStore.Decode, Start, HStore.NullsTidy;
    assert Chars(ps) == h.str && Flagged(Words(ps)) == h.entries by {
      hide HStore.Layout;
      PackUpTo(h, n);
      WholeText(h);
      FlaggedWords(Words(ps), h.entries);
    }
  }

  lemma {:induction false} FlaggedWords(w: seq<int>, entries: seq<int>)
    requires |w| == |entries| && forall k :: 0 <= k < |w| ==> w[k] == entries[k] - if k == 0 then ISFIRST else 0
    ensures Flagged(w) == entries
  {
  }

  lemma {:induction false} WholeText(h: HStore)
    requires h.Layout()
    ensures Start(h, |h.entries| / 2) == |h.str|
  {
  }

  ghost function MapOf(ps: seq<Pair>): map<string, Option<string>> {
    if ps == [] then map[] else MapOf(ps[1..])[ps[0].key := ps[0].val]
  }

  /** What a map says of a key: nothing, null, or a value. */
  ghost function Lookup<K, V>(m: map<K, V>, k: K): Option<V> {
    if k in m then Some(m[k]) else None
  }

  lemma {:induction false} LookupsDecide<K(!new), V>(m: map<K, V>, n: map<K, V>)
    requires forall k :: Lookup(m, k) == Lookup(n, k)
    ensures m == n
  {
    forall k ensures k in m <==> k in n {
      assert Lookup(m, k) == Lookup(n, k);
    }
    forall k | k in m ensures m[k] == n[k] {
      assert Lookup(m, k) == Lookup(n, k);
    }
  }

  lemma {:induction false} MapOfKeys(ps: seq<Pair>, k: string)
    ensures k in MapOf(ps) <==> exists i :: 0 <= i < |ps| && ps[i].key == k
  {
    if ps != [] {
      MapOfKeys(ps[1..], k);
      if i :| 0 <= i < |ps| && ps[i].key == k {
        if i > 0 { assert ps[1..][i - 1].key == k; }
      }
    }
  }

  lemma {:induction false} MapOfAt(ps: seq<Pair>, i: nat)
    requires StrictKeys(ps) && i < |ps|
    ensures ps[i].key in MapOf(ps) && MapOf(ps)[ps[i].key] == ps[i].val
  {
    if i > 0 {
      assert StrictKeys(ps[1..]);
      MapOfAt(ps[1..], i - 1);
      KeyCmpTotal();
      assert KeyCmp(ps[0].key, ps[i].key) < 0;
    }
  }

  /** Sorted pairs are determined by the map they stand for. */
  lemma {:induction false} SameMapSamePairs(ps: seq<Pair>, qs: seq<Pair>)
    requires StrictKeys(ps) && StrictKeys(qs) && MapOf(ps) == MapOf(qs)
    ensures ps == qs
  {
    hide MapOf, StrictKeys;
    EmptyMap(ps);
    EmptyMap(qs);
    if ps != [] {
      SameHead(ps, qs);
      TailMap(ps);
      TailMap(qs);
      SameMapSamePairs(ps[1..], qs[1..]);
      assert ps == [ps[0]] + ps[1..] && qs == [qs[0]] + qs[1..];
    }
  }

  lemma {:induction false} TailMap(ps: seq<Pair>)
    requires StrictKeys(ps) && ps != []
    ensures StrictKeys(ps[1..]) && MapOf(ps[1..]) == MapOf(ps) - {ps[0].key}
  {
    hide KeyCmp;
    HeadNotInTail(ps);
  }

  lemma {:induction false} EmptyMap(ps: seq<Pair>)
    ensures MapOf(ps) == map[] <==> ps == []
  {
    if ps != [] { assert ps[0].key in MapOf(ps); }
  }

  lemma {:induction false} HeadNotInTail(ps: seq<Pair>)
    requires StrictKeys(ps) && ps != []
    ensures ps[0].key !in MapOf(ps[1..])
  {
    MapOfKeys(ps[1..], ps[0].key);
    KeyCmpTotal();
    forall i | 0 <= i < |ps[1..]| ensures ps[1..][i].key != ps[0].key {
      assert KeyCmp(ps[0].key, ps[i + 1].key) < 0;
    }
  }

  lemma {:induction false} SameHead(ps: seq<Pair>, qs: seq<Pair>)
    requires StrictKeys(ps) && StrictKeys(qs) && ps != [] && qs != [] && MapOf(ps) == MapOf(qs)
    ensures ps[0] == qs[0]
  {
    MapOfAt(ps, 0);
    MapOfAt(qs, 0);
    FirstIsLeast(ps, qs[0].key);
    FirstIsLeast(qs, ps[0].key);
    KeyCmpTotal();
  }

  lemma {:induction false} FirstIsLeast(ps: seq<Pair>, k: string)
    requires StrictKeys(ps) && k in MapOf(ps)
    ensures ps != [] && KeyCmp(ps[0].key, k) <= 0
  {
    MapOfKeys(ps, k);
    KeyCmpTotal();
  }

  /** Two canonical values are equal exactly when they stand for the same map. */
  lemma {:induction false} CanonicalUnique(h: HStore, g: HStore)
    requires h.Canonical() && g.Canonical()
    ensures h == g <==> MapOf(h.Decode()) == MapOf(g.Decode())
  {
    hide HStore.Layout, HStore.NullsTidy, HStore.Decode, StrictKeys, Pack, MapOf;
    if MapOf(h.Decode()) == MapOf(g.Decode()) {
      SameMapSamePairs(h.Decode(), g.Decode());
      TidyIsPack(h);
      TidyIsPack(g);
    }
  }
}
