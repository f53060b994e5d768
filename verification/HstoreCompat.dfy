/** Values written by older releases: the validity tests that tell the formats
    apart and the in-place conversion (`hstoreUpgrade`). */
module HstoreCompat {
  import opened Common
  import opened HstoreLayout
  import Order

  const UINT16_LIMIT := 0x1_0000

  /** A stored value: its length word, its size word, the entry words and the
      bytes behind them.  Both formats spend two words on a pair. */
  datatype Block = Block(varsize: int, size: int, words: seq<int>, text: string) {

    function Count(): int { size % COUNT_LIMIT }

    predicate Flagged() { size / NEWVERSION % 2 == 1 }

    /** The words and bytes that lie within the stored length. */
    ghost predicate Stored() {
      && 0 <= size < UINT32_LIMIT && 8 <= varsize <= MAX_ALLOC
      && (forall i :: 0 <= i < |words| ==> 0 <= words[i] < UINT32_LIMIT)
      && (CalcDataSize(Count(), 0) <= varsize ==>
            |words| == 2 * Count() && |text| == varsize - CalcDataSize(Count(), 0))
    }
  }

  // ----------------------------------------------------- the old entries

  /** struct HOldEntry, as laid out on i386: keylen and vallen share the first
      word, the null bit is the lowest of the second. */
  function OldKeyLen(w: seq<int>, i: nat): int
    requires 2 * i + 1 < |w|
  {
    w[2 * i] % UINT16_LIMIT
  }

  function OldValLen(w: seq<int>, i: nat): int
    requires 2 * i + 1 < |w|
  {
    w[2 * i] / UINT16_LIMIT
  }

  predicate OldNull(w: seq<int>, i: nat)
    requires 2 * i + 1 < |w|
  {
    w[2 * i + 1] % 2 == 1
  }

  function OldPos(w: seq<int>, i: nat): int
    requires 2 * i + 1 < |w|
  {
    w[2 * i + 1] / 2
  }

  /** Bytes that pair i takes up. */
  function OldLen(w: seq<int>, i: nat): int
    requires 2 * i + 1 < |w|
  {
    OldKeyLen(w, i) + if OldNull(w, i) then 0 else OldValLen(w, i)
  }

  /** Bytes of all pairs before i. */
  ghost function OldStart(w: seq<int>, i: nat): int
    requires 2 * i <= |w|
  {
    if i == 0 then 0 else OldStart(w, i - 1) + OldLen(w, i - 1)
  }

  ghost predicate Uint32s(w: seq<int>) {
    forall i :: 0 <= i < |w| ==> 0 <= w[i] < UINT32_LIMIT
  }

  lemma {:induction false} OldStarts(w: seq<int>, i: nat, j: nat)
    requires Uint32s(w) && i <= j && 2 * j <= |w|
    ensures 0 <= OldStart(w, i) <= OldStart(w, j)
    decreases j
  {
    if i < j {
      OldStarts(w, i, j - 1);
      assert 0 <= w[2 * (j - 1)];
    } else if j > 0 {
      OldStarts(w, j - 1, j - 1);
      assert 0 <= w[2 * (j - 1)];
    }
  }

  /** The pair an old entry describes. */
  ghost function OldPair(b: Block, i: nat): Pair
    requires OldValid(b) && i < b.Count()
  {
    var w, pos := b.words, OldPos(b.words, i);
    OldFits(b, i);
    Pair(b.text[pos..pos + OldKeyLen(w, i)],
         if OldNull(w, i) then None
         else Some(b.text[pos + OldKeyLen(w, i)..pos + OldKeyLen(w, i) + OldValLen(w, i)]))
  }

  /** Positions contiguous from zero, key lengths not decreasing, all within
      the stored length. */
  ghost predicate OldValid(b: Block) {
    && b.Stored() && !b.Flagged() && b.size < COUNT_LIMIT
    && CalcDataSize(b.Count(), 0) <= b.varsize
    && (forall i :: 0 < i < b.Count() ==> OldKeyLen(b.words, i - 1) <= OldKeyLen(b.words, i))
    && (forall i :: 0 <= i < b.Count() ==> OldPos(b.words, i) == OldStart(b.words, i))
    && CalcDataSize(b.Count(), OldStart(b.words, b.Count())) <= b.varsize
  }

  lemma {:induction false} OldFits(b: Block, i: nat)
    requires OldValid(b) && i < b.Count()
    ensures 0 <= OldPos(b.words, i) && 0 <= OldKeyLen(b.words, i) && 0 <= OldValLen(b.words, i)
    ensures OldPos(b.words, i) + OldLen(b.words, i) == OldStart(b.words, i + 1)
    ensures OldStart(b.words, i + 1) <= OldStart(b.words, b.Count()) <= |b.text|
  {
    hide OldStart;
    var w := b.words;
    OldStarts(w, i, i);
    OldStarts(w, i + 1, b.Count());
    OldStep(w, i);
    assert 0 <= w[2 * i];
  }

  lemma {:induction false} OldStep(w: seq<int>, i: nat)
    requires 2 * i + 1 < |w|
    ensures OldStart(w, i + 1) == OldStart(w, i) + OldLen(w, i)
  {
  }

  /** `hstoreValidOldFormat`: 0 for no, 1 with slop, 2 exactly. */
  method ValidOldFormat(b: Block) returns (r: int)
    requires b.Stored()
    ensures r != 0 <==> OldValid(b)
    ensures r == 2 <==> OldValid(b) && (b.size == 0 || CalcDataSize(b.size, OldStart(b.words, b.size)) == b.varsize)
    ensures r == 0 || r == 1 || r == 2
    ensures forall ps, left, pad :: OldFormed(ps, left, pad) && b == OldPack(ps, left, pad) ==>
      r == if ps == [] || pad == "" then 2 else 1
  {
    hide OldStart, OldKeyLen, OldLen, OldPos, OldFormed, OldPack;
    forall ps, left, pad | OldFormed(ps, left, pad) && b == OldPack(ps, left, pad)
      ensures OldValid(b) && b.size == |ps|
      ensures CalcDataSize(b.size, OldStart(b.words, b.size)) == b.varsize <==> pad == ""
    {
      OldPackValid(ps, left, pad);
    }
    if b.Flagged() {
      return 0;
    }
    var count := b.size;
    if count == 0 {
      NoPairs(b.words);
      return 2;
    }
    if count > 0xFFF_FFFF {
      return 0;
    }
    if CalcDataSize(count, 0) > b.varsize {
      return 0;
    }
    NoPairs(b.words);
    OldFirst(b.words);
    if OldPos(b.words, 0) != 0 {
      return 0;
    }
    for i := 1 to count
      invariant forall k :: 0 < k < i ==> OldKeyLen(b.words, k - 1) <= OldKeyLen(b.words, k)
    {
      if OldKeyLen(b.words, i) < OldKeyLen(b.words, i - 1) {
        return 0;
      }
    }
    var lastpos := 0;
    for i := 0 to count
      invariant lastpos == OldStart(b.words, i)
      invariant forall k :: 0 <= k < i ==> OldPos(b.words, k) == OldStart(b.words, k)
    {
      if OldPos(b.words, i) != lastpos {
        return 0;
      }
      OldStep(b.words, i);
      lastpos := lastpos + OldLen(b.words, i);
    }
    var vsize := CalcDataSize(count, lastpos);
    if vsize > b.varsize {
      return 0;
    }
    return if vsize != b.varsize then 1 else 2;
  }

  lemma {:induction false} NoPairs(w: seq<int>)
    ensures OldStart(w, 0) == 0
  {
  }

  lemma {:induction false} OldFirst(w: seq<int>)
    requires |w| >= 2
    ensures OldStart(w, 0) == 0
  {
  }

  // ----------------------------------------------------- the new entries

  /** What `hstoreValidNewFormat` asks of unflagged entries. */
  ghost predicate NewValid(w: seq<int>, varsize: int) {
    |w| > 0 && |w| % 2 == 0 && IsFirst(w[0])
    && CalcDataSize(|w| / 2, EndPos(w[|w| - 1])) <= varsize
    && (forall i :: 0 < i < |w| ==> !IsFirst(w[i]) && EndPos(w[i - 1]) <= EndPos(w[i]))
    && (forall i :: 0 < i < |w| / 2 ==> NewKeyLen(w, i - 1) <= NewKeyLen(w, i) && !IsNull(w[2 * i]))
  }

  function NewKeyLen(w: seq<int>, i: nat): int
    requires 2 * i < |w| && (i == 0 ==> IsFirst(w[0]))
  {
    if IsFirst(w[2 * i]) then EndPos(w[2 * i]) else EndPos(w[2 * i]) - EndPos(w[2 * i - 1])
  }

  /** The value passes as new: flagged, empty, or with proper entries. */
  ghost predicate PassesAsNew(b: Block) {
    b.Flagged() || b.Count() == 0 || (CalcDataSize(b.Count(), 0) <= b.varsize && NewValid(b.words, b.varsize))
  }

  /** `hstoreValidNewFormat`: 0 for no, 1 with slop, 2 exactly. */
  method ValidNewFormat(b: Block) returns (r: int)
    requires b.Stored()
    ensures r != 0 <==> PassesAsNew(b)
    ensures r == 0 || r == 1 || r == 2
    ensures r == 1 ==> b.words != []
    ensures r == 1 <==> PassesAsNew(b) && !b.Flagged() && b.Count() > 0
                        && CalcDataSize(b.Count(), EndPos(b.words[|b.words| - 1])) != b.varsize
    ensures forall ps :: ps != [] && Fits(ps) && StrictKeys(ps) && b == Unflagged(ps) ==> r == 2
  {
    hide EndPos, IsFirst, IsNull, NewValid, Unflagged, Fits, StrictKeys;
    forall ps | ps != [] && Fits(ps) && StrictKeys(ps) && b == Unflagged(ps)
      ensures PassesAsNew(b) && !b.Flagged() && b.Count() > 0 && b.words != []
      ensures CalcDataSize(b.Count(), EndPos(b.words[|b.words| - 1])) == b.varsize
    {
      UnflaggedPasses(ps);
    }
    var count := b.Count();
    if b.Flagged() {
      return 2;
    }
    if count == 0 {
      return 2;
    }
    if CalcDataSize(count, 0) > b.varsize {
      // the header claims more entries than the value holds: whatever lies
      // behind it, the size test fails
      return 0;
    }
    var ok := NewEntriesOk(b.words, b.varsize);
    if !ok {
      return 0;
    }
    return if CalcDataSize(count, EndPos(b.words[2 * count - 1])) != b.varsize then 1 else 2;
  }

  method NewEntriesOk(w: seq<int>, varsize: int) returns (ok: bool)
    requires |w| > 0 && |w| % 2 == 0
    ensures ok <==> NewValid(w, varsize)
  {
    hide EndPos, IsFirst, IsNull;
    var count := |w| / 2;
    if !IsFirst(w[0]) {
      return false;
    }
    if CalcDataSize(count, EndPos(w[2 * count - 1])) > varsize {
      return false;
    }
    for i := 1 to 2 * count
      invariant forall k :: 0 < k < i ==> !IsFirst(w[k]) && EndPos(w[k - 1]) <= EndPos(w[k])
    {
      if IsFirst(w[i]) || EndPos(w[i]) < EndPos(w[i - 1]) {
        return false;
      }
    }
    for i := 1 to count
      invariant forall k :: 0 < k < i ==> NewKeyLen(w, k - 1) <= NewKeyLen(w, k) && !IsNull(w[2 * k])
    {
      if NewKeyLen(w, i) < NewKeyLen(w, i - 1) {
        return false;
      }
      if IsNull(w[2 * i]) {
        return false;
      }
    }
    return true;
  }

  // --------------------------------------------------------- conversion

  ghost function NewKeyWord(w: seq<int>, i: nat): int
    requires 2 * i + 1 < |w|
  {
    (OldPos(w, i) + OldKeyLen(w, i)) % ISNULL
  }

  ghost function NewValWord(w: seq<int>, i: nat): int
    requires 2 * i + 1 < |w|
  {
    (OldPos(w, i) + OldLen(w, i)) % ISNULL + if OldNull(w, i) then ISNULL else 0
  }

  /** Pairs of words rewritten one by one at their own addresses. */
  ghost predicate Rewritten(w: seq<int>, w': seq<int>, n: nat) {
    |w'| == |w| && 2 * n <= |w|
    && (forall i :: 0 <= i < n ==> w'[2 * i] == NewKeyWord(w, i))
    && (forall i :: 0 <= i < n ==> w'[2 * i + 1] == NewValWord(w, i))
    && w'[2 * n..] == w[2 * n..]
  }

  lemma {:induction false} RewriteOne(w: seq<int>, a: seq<int>, b: seq<int>, n: nat)
    requires Rewritten(w, a, n) && 2 * n + 1 < |w|
    requires b == a[2 * n := NewKeyWord(w, n)][2 * n + 1 := NewValWord(w, n)]
    ensures Rewritten(w, b, n + 1)
  {
    hide NewKeyWord, NewValWord;
    assert b[2 * (n + 1)..] == a[2 * n..][2..];
  }

  /** The conversion loop. */
  method Convert(words: array<int>, count: nat) returns (ghost w': seq<int>)
    requires words.Length == 2 * count && count > 0
    modifies words
    ensures w' != [] && Rewritten(old(words[..]), w', count) && words[..] == w'[0 := w'[0] + ISFIRST]
  {
    hide Rewritten;
    ghost var w := words[..];
    RewriteNone(w);
    for i := 0 to count
      invariant Rewritten(w, words[..], i)
    {
      ghost var a := words[..];
      StillOld(w, a, i);
      var pos := OldPos(words[..], i);
      var keylen := OldKeyLen(words[..], i);
      var vallen := OldValLen(words[..], i);
      var isnull := OldNull(words[..], i);
      if isnull {
        vallen := 0;
      }
      words[2 * i] := (pos + keylen) % ISNULL;
      words[2 * i + 1] := (pos + keylen + vallen) % ISNULL + if isnull then ISNULL else 0;
      RewriteOne(w, a, words[..], i);
    }
    w' := words[..];
    words[0] := words[0] + ISFIRST;
  }

  lemma {:induction false} RewriteNone(w: seq<int>)
    ensures Rewritten(w, w, 0)
  {
  }

  lemma {:induction false} StillOld(w: seq<int>, a: seq<int>, i: nat)
    requires Rewritten(w, a, i) && 2 * i + 1 < |w|
    ensures |a| == |w| && a[2 * i] == w[2 * i] && a[2 * i + 1] == w[2 * i + 1]
  {
    hide NewKeyWord, NewValWord;
    assert a[2 * i..][0] == w[2 * i..][0] && a[2 * i..][1] == w[2 * i..][1];
  }

  /** The value a reader sees after the conversion. */
  ghost function UpgradedFrom(b: Block, w: seq<int>): HStore
    requires w != []
  {
    var bl := EndPos(w[|w| - 1]);
    HStore(CalcDataSize(|w| / 2, bl), |w| / 2 + NEWVERSION, w, if 0 <= bl <= |b.text| then b.text[..bl] else "")
  }

  /** The rewritten words, flag included, as entries with known positions. */
  lemma {:induction false} NewWords(b: Block, w': seq<int>, w: seq<int>, i: nat)
    requires OldValid(b) && i < b.Count() && Rewritten(b.words, w', b.Count()) && w == w'[0 := w'[0] + ISFIRST]
    ensures w[2 * i] == Word(OldStart(b.words, i) + OldKeyLen(b.words, i), false, i == 0)
    ensures w[2 * i + 1] == Word(OldStart(b.words, i + 1), OldNull(b.words, i), false)
    ensures 0 <= OldStart(b.words, i) + OldKeyLen(b.words, i) <= OldStart(b.words, i + 1) < ISNULL
    ensures OldNull(b.words, i) ==> OldStart(b.words, i) + OldKeyLen(b.words, i) == OldStart(b.words, i + 1)
    ensures 0 <= OldStart(b.words, i)
  {
    hide OldStart, OldKeyLen, OldNull, OldPos;
    OldFits(b, i);
    assert OldPos(b.words, i) == OldStart(b.words, i);
    assert w'[2 * i] == NewKeyWord(b.words, i);
    assert w'[2 * i + 1] == NewValWord(b.words, i);
  }

  lemma {:induction false} OldSize(b: Block)
    requires OldValid(b)
    ensures |b.words| == 2 * b.Count() && b.size == b.Count()
    ensures |b.text| == b.varsize - CalcDataSize(b.Count(), 0) && b.varsize <= MAX_ALLOC
  {
  }

  lemma {:induction false} NewEntries(b: Block, w': seq<int>, w: seq<int>, i: nat)
    requires OldValid(b) && i < b.Count() && Rewritten(b.words, w', b.Count()) && w == w'[0 := w'[0] + ISFIRST]
    ensures 0 <= w[2 * i] < UINT32_LIMIT && IsFirst(w[2 * i]) == (i == 0) && !IsNull(w[2 * i])
    ensures EndPos(w[2 * i]) == OldStart(b.words, i) + OldKeyLen(b.words, i)
    ensures 0 <= w[2 * i + 1] < UINT32_LIMIT && !IsFirst(w[2 * i + 1]) && IsNull(w[2 * i + 1]) == OldNull(b.words, i)
    ensures EndPos(w[2 * i + 1]) == OldStart(b.words, i + 1)
    ensures 0 <= OldStart(b.words, i) <= EndPos(w[2 * i]) <= EndPos(w[2 * i + 1])
    ensures OldNull(b.words, i) ==> EndPos(w[2 * i]) == EndPos(w[2 * i + 1])
  {
    hide OldStart, OldKeyLen, OldNull, OldValid, Rewritten, Word, IsFirst, IsNull, EndPos, Block.Count;
    OldSize(b);
    NewWords(b, w', w, i);
    WordBits(OldStart(b.words, i) + OldKeyLen(b.words, i), false, i == 0);
    WordBits(OldStart(b.words, i + 1), OldNull(b.words, i), false);
    assert 0 <= OldKeyLen(b.words, i) by { OldFits(b, i); }
  }

  /** End position of word k after the conversion, straight from the old entries. */
  ghost function EndAt(w: seq<int>, k: nat): int
    requires k < |w| && |w| % 2 == 0
  {
    if k % 2 == 0 then OldStart(w, k / 2) + OldKeyLen(w, k / 2) else OldStart(w, k / 2 + 1)
  }

  lemma {:induction false} NewEntryAt(b: Block, w': seq<int>, w: seq<int>, k: nat)
    requires OldValid(b) && Rewritten(b.words, w', b.Count()) && k < |w'| && w == w'[0 := w'[0] + ISFIRST]
    ensures |b.words| == |w| == 2 * b.Count()
    ensures 0 <= w[k] < UINT32_LIMIT && IsFirst(w[k]) == (k == 0) && EndPos(w[k]) == EndAt(b.words, k)
  {
    OldSize(b);
    RewrittenSize(b.words, w', b.Count());
    hide OldStart, OldKeyLen, OldNull, OldValid, Rewritten, IsFirst, IsNull, EndPos, Block.Count;
    NewEntries(b, w', w, k / 2);
    if k % 2 == 0 { assert k == 2 * (k / 2); } else { assert k == 2 * (k / 2) + 1; }
  }

  lemma {:induction false} RewrittenSize(w: seq<int>, w': seq<int>, n: nat)
    requires Rewritten(w, w', n)
    ensures |w'| == |w|
  {
  }

  lemma {:induction false} EndsRise(b: Block, j: nat, k: nat)
    requires OldValid(b) && j <= k < |b.words| && |b.words| % 2 == 0
    ensures EndAt(b.words, j) <= EndAt(b.words, k)
  {
    OldSize(b);
    assert Uint32s(b.words);
    hide OldStart, OldValid;
    OldFits(b, j / 2);
    OldFits(b, k / 2);
    OldStep(b.words, j / 2);
    OldStep(b.words, k / 2);
    if j / 2 < k / 2 { OldStarts(b.words, j / 2 + 1, k / 2); }
  }

  lemma {:induction false} UpgradeLayout(b: Block, w': seq<int>, w: seq<int>)
    requires OldValid(b) && b.Count() > 0 && Rewritten(b.words, w', b.Count()) && w == w'[0 := w'[0] + ISFIRST]
    ensures |w| == 2 * b.Count() && UpgradedFrom(b, w).Layout() && UpgradedFrom(b, w).entries == w
    ensures EndPos(w[|w| - 1]) == OldStart(b.words, b.Count()) <= |b.text|
  {
    hide OldStart, OldKeyLen, OldNull, OldLen, OldValid, Rewritten, IsFirst, IsNull, EndPos, EndAt, Block.Count;
    OldSize(b);
    RewrittenSize(b.words, w', b.Count());
    forall k | 0 <= k < |w|
      ensures 0 <= w[k] < UINT32_LIMIT && IsFirst(w[k]) == (k == 0) && EndPos(w[k]) == EndAt(b.words, k) {
      NewEntryAt(b, w', w, k);
    }
    forall j, k | 0 <= j <= k < |w| ensures EndPos(w[j]) <= EndPos(w[k]) {
      EndsRise(b, j, k);
    }
    NewEntries(b, w', w, b.Count() - 1);
    OldFits(b, b.Count() - 1);
  }

  lemma {:induction false} UpgradeNulls(b: Block, w': seq<int>, w: seq<int>)
    requires OldValid(b) && b.Count() > 0 && Rewritten(b.words, w', b.Count()) && w == w'[0 := w'[0] + ISFIRST]
    ensures |w| == 2 * b.Count() && UpgradedFrom(b, w).NullsTidy()
  {
    OldSize(b);
    RewrittenSize(b.words, w', b.Count());
    hide OldStart, OldKeyLen, OldNull, OldValid, Rewritten, IsFirst, IsNull, EndPos, Block.Count;
    forall i | 0 <= i < |w| / 2
      ensures !IsNull(w[2 * i]) && (IsNull(w[2 * i + 1]) ==> EndPos(w[2 * i + 1]) == EndPos(w[2 * i])) {
      NewEntries(b, w', w, i);
    }
  }

  lemma {:induction false} UpgradePair(b: Block, w': seq<int>, w: seq<int>, i: nat)
    requires OldValid(b) && i < b.Count() && Rewritten(b.words, w', b.Count()) && w == w'[0 := w'[0] + ISFIRST]
    requires |w| == 2 * b.Count() && UpgradedFrom(b, w).Layout()
    ensures UpgradedFrom(b, w).PairAt(i) == OldPair(b, i)
  {
    hide OldStart, OldKeyLen, OldNull, OldValid, Rewritten, IsFirst, IsNull, EndPos, Block.Count, HStore.Layout, OldPos,
      HStore.Off, HStore.Len, OldLen, OldValLen;
    OldSize(b);
    var h := UpgradedFrom(b, w);
    UpgradeLayout(b, w', w);
    UpgradeSpan(b, w', w, i);
    OldFits(b, i);
    OldLenIs(b, i);
    var a, m, z := OldStart(b.words, i), OldStart(b.words, i) + OldKeyLen(b.words, i), OldStart(b.words, i + 1);
    Clip(b.text, EndPos(w[|w| - 1]), a, m);
    Clip(b.text, EndPos(w[|w| - 1]), m, z);
  }

  lemma {:induction false} Clip(s: string, n: int, a: int, b: int)
    requires 0 <= a <= b <= n <= |s|
    ensures s[..n][a..b] == s[a..b]
  {
  }

  lemma {:induction false} OldLenIs(b: Block, i: nat)
    requires OldValid(b) && i < b.Count()
    ensures OldPos(b.words, i) == OldStart(b.words, i)
    ensures OldStart(b.words, i + 1)
         == OldStart(b.words, i) + OldKeyLen(b.words, i) + if OldNull(b.words, i) then 0 else OldValLen(b.words, i)
  {
    OldStep(b.words, i);
  }

  lemma {:induction false} UpgradeSpan(b: Block, w': seq<int>, w: seq<int>, i: nat)
    requires OldValid(b) && i < b.Count() && Rewritten(b.words, w', b.Count()) && w == w'[0 := w'[0] + ISFIRST]
    requires |w| == 2 * b.Count() && UpgradedFrom(b, w).Layout()
    ensures UpgradedFrom(b, w).Off(2 * i) == OldStart(b.words, i)
    ensures UpgradedFrom(b, w).Len(2 * i) == OldKeyLen(b.words, i)
    ensures UpgradedFrom(b, w).Off(2 * i + 1) == OldStart(b.words, i) + OldKeyLen(b.words, i)
    ensures UpgradedFrom(b, w).Len(2 * i + 1) == OldStart(b.words, i + 1) - OldStart(b.words, i) - OldKeyLen(b.words, i)
    ensures IsNull(w[2 * i + 1]) == OldNull(b.words, i)
  {
    hide OldStart, OldKeyLen, OldNull, OldValid, Rewritten, IsFirst, IsNull, EndPos, Block.Count, HStore.Layout, OldPos,
      OldLen;
    OldSize(b);
    var h := UpgradedFrom(b, w);
    NewEntries(b, w', w, i);
    PairSpan(h, i);
    if i > 0 {
      NewEntries(b, w', w, i - 1);
      assert 2 * (i - 1) + 1 == 2 * i - 1;
    } else {
      NoPairs(b.words);
    }
  }

  /** The converted entries also pass the test for the new format, exactly. */
  lemma {:induction false} UpgradeNewValid(b: Block, w': seq<int>, w: seq<int>)
    requires OldValid(b) && b.Count() > 0 && Rewritten(b.words, w', b.Count()) && w == w'[0 := w'[0] + ISFIRST]
    ensures w != [] && NewValid(w, UpgradedFrom(b, w).varsize)
  {
    hide OldStart, OldKeyLen, OldNull, OldValid, Rewritten, IsFirst, IsNull, EndPos, Block.Count, HStore.Layout,
      NewKeyLen;
    OldSize(b);
    RewrittenSize(b.words, w', b.Count());
    UpgradeLayout(b, w', w);
    LayoutNeighbours(UpgradedFrom(b, w));
    forall i | 0 < i < |w| / 2 ensures NewKeyLen(w, i - 1) <= NewKeyLen(w, i) && !IsNull(w[2 * i]) {
      KeyLensRise(b, w', w, i);
    }
  }

  lemma {:induction false} LayoutNeighbours(h: HStore)
    requires h.Layout() && h.entries != []
    ensures IsFirst(h.entries[0])
    ensures forall i :: 0 < i < |h.entries| ==>
      !IsFirst(h.entries[i]) && EndPos(h.entries[i - 1]) <= EndPos(h.entries[i])
  {
    hide IsFirst, EndPos;
  }

  lemma {:induction false} KeyLensRise(b: Block, w': seq<int>, w: seq<int>, i: nat)
    requires OldValid(b) && Rewritten(b.words, w', b.Count()) && w' != [] && w == w'[0 := w'[0] + ISFIRST]
    requires |w| == 2 * b.Count() && UpgradedFrom(b, w).Layout() && 0 < i < b.Count() && IsFirst(w[0])
    ensures NewKeyLen(w, i - 1) <= NewKeyLen(w, i) && !IsNull(w[2 * i])
  {
    OldSize(b);
    assert OldKeyLen(b.words, i - 1) <= OldKeyLen(b.words, i);
    hide OldStart, OldKeyLen, OldNull, OldValid, Rewritten, IsFirst, IsNull, EndPos, Block.Count, HStore.Layout;
    NewEntries(b, w', w, i);
    UpgradeSpan(b, w', w, i);
    UpgradeSpan(b, w', w, i - 1);
  }

  // ------------------------------------- which values the old format has

  /** The pairs as an old release lays them out, one behind the other, with whatever
      length is left over in the entry of a null value, and padding at the end. */
  ghost function OldPack(ps: seq<Pair>, left: int -> int, pad: string): Block {
    Block(CalcDataSize(|ps|, |Chars(ps)| + |pad|), |ps|, OldWords(ps, left), Chars(ps) + pad)
  }

  ghost function OldWords(ps: seq<Pair>, left: int -> int): (w: seq<int>)
    ensures |w| == 2 * |ps| && forall k :: 0 <= k < |w| ==> w[k] == OldWord(ps, left, k)
  {
    seq(2 * |ps|, k requires 0 <= k < 2 * |ps| => OldWord(ps, left, k))
  }

  /** Both lengths in one word, position and null bit in the other. */
  ghost function OldWord(ps: seq<Pair>, left: int -> int, k: int): int
    requires 0 <= k < 2 * |ps|
  {
    var i := k / 2;
    if k % 2 == 0 then |ps[i].key| + 0x1_0000 * LengthField(ps[i], left(i))
    else 2 * StartOf(ps, i) + if ps[i].val.None? then 1 else 0
  }

  lemma {:induction false} OldWordsAt(ps: seq<Pair>, left: int -> int, i: nat)
    requires i < |ps|
    ensures OldWords(ps, left)[2 * i] == |ps[i].key| + 0x1_0000 * LengthField(ps[i], left(i))
    ensures OldWords(ps, left)[2 * i + 1] == 2 * StartOf(ps, i) + if ps[i].val.None? then 1 else 0
  {
    hide OldWords, StartOf, LengthField;
  }

  ghost function LengthField(p: Pair, left: int): int {
    if p.val.Some? then |p.val.value| else left
  }

  /** Lengths of 16 bits, keys no shorter than those before, and a total that can be
      allocated. */
  ghost predicate OldFormed(ps: seq<Pair>, left: int -> int, pad: string) {
    CalcDataSize(|ps|, |Chars(ps)| + |pad|) <= MAX_ALLOC
    && (forall i :: 0 <= i < |ps| ==> |ps[i].key| < 0x1_0000 && 0 <= LengthField(ps[i], left(i)) < 0x1_0000)
    && (forall i :: 0 < i < |ps| ==> |ps[i - 1].key| <= |ps[i].key|)
  }

  lemma {:induction false} OldPackFields(ps: seq<Pair>, left: int -> int, pad: string, i: nat)
    requires OldFormed(ps, left, pad) && i < |ps|
    ensures var w := OldWords(ps, left);
      && OldKeyLen(w, i) == |ps[i].key| && OldValLen(w, i) == LengthField(ps[i], left(i))
      && OldPos(w, i) == StartOf(ps, i) && OldNull(w, i) == ps[i].val.None?
      && OldLen(w, i) == |ps[i].Text()|
      && 0 <= w[2 * i] < UINT32_LIMIT && 0 <= w[2 * i + 1] < UINT32_LIMIT
  {
    hide StartOf, Chars, OldWords;
    StartsGrow(ps, i, i);
    OldWordsAt(ps, left, i);
    var p := ps[i];
    TwoHalves(|p.key|, LengthField(p, left(i)));
  }

  lemma {:induction false} TwoHalves(lo: int, hi: int)
    requires 0 <= lo < 0x1_0000 && 0 <= hi < 0x1_0000
    ensures (lo + 0x1_0000 * hi) % UINT16_LIMIT == lo && (lo + 0x1_0000 * hi) / UINT16_LIMIT == hi
    ensures 0 <= lo + 0x1_0000 * hi < UINT32_LIMIT
  {
  }

  lemma {:induction false} OldPackStarts(ps: seq<Pair>, left: int -> int, pad: string, i: nat)
    requires OldFormed(ps, left, pad) && i <= |ps|
    ensures OldStart(OldWords(ps, left), i) == StartOf(ps, i)
  {
    hide OldFormed, OldLen, OldWords, OldStart, StartOf, OldKeyLen, OldValLen, OldPos, OldNull, LengthField;
    var w := OldWords(ps, left);
    if i == 0 {
      StartsAtZero(ps);
      NoPairs(w);
    } else {
      OldPackStarts(ps, left, pad, i - 1);
      OldPackFields(ps, left, pad, i - 1);
      OldStep(w, i - 1);
      NextStart(ps, i - 1);
    }
  }

  /** The test for the old format accepts all of these, exactly when without padding,
      and their entries describe the pairs. */
  lemma {:induction false} OldPackValid(ps: seq<Pair>, left: int -> int, pad: string)
    requires OldFormed(ps, left, pad)
    ensures var b := OldPack(ps, left, pad);
      && OldValid(b) && b.Count() == b.size == |ps|
      && (CalcDataSize(b.size, OldStart(b.words, b.size)) == b.varsize <==> pad == "")
      && forall i :: 0 <= i < |ps| ==> OldPair(b, i) == ps[i]
  {
    hide OldStart, OldKeyLen, OldValLen, OldPos, OldNull, OldLen, OldWords, Chars, StartOf;
    var b := OldPack(ps, left, pad);
    forall i | 0 <= i <= |ps| ensures OldStart(b.words, i) == StartOf(ps, i) {
      OldPackStarts(ps, left, pad, i);
    }
    assert ps[..|ps|] == ps;
    assert StartOf(ps, |ps|) == |Chars(ps)| by { WholeStart(ps); }
    assert b.Stored() by { OldPackStored(ps, left, pad); }
    forall i | 0 <= i < |ps|
      ensures OldKeyLen(b.words, i) == |ps[i].key| && OldPos(b.words, i) == StartOf(ps, i)
    {
      OldPackFields(ps, left, pad, i);
    }
    assert OldValid(b);
    forall i | 0 <= i < |ps| ensures OldPair(b, i) == ps[i] {
      OldPackPair(ps, left, pad, i);
    }
  }

  lemma {:induction false} WholeStart(ps: seq<Pair>)
    ensures StartOf(ps, |ps|) == |Chars(ps)|
  {
    assert ps[..|ps|] == ps;
  }

  lemma {:induction false} OldPackStored(ps: seq<Pair>, left: int -> int, pad: string)
    requires OldFormed(ps, left, pad)
    ensures var b := OldPack(ps, left, pad); b.Stored() && b.Count() == |ps| && !b.Flagged()
  {
    hide OldWords, Chars;
    var b := OldPack(ps, left, pad);
    forall k | 0 <= k < |b.words| ensures 0 <= b.words[k] < UINT32_LIMIT {
      OldPackFields(ps, left, pad, k / 2);
      assert k == 2 * (k / 2) || k == 2 * (k / 2) + 1;
    }
  }

  lemma {:induction false} OldPackPair(ps: seq<Pair>, left: int -> int, pad: string, i: nat)
    requires OldFormed(ps, left, pad) && OldValid(OldPack(ps, left, pad)) && i < |ps|
    requires OldPack(ps, left, pad).Count() == |ps|
    ensures OldPair(OldPack(ps, left, pad), i) == ps[i]
  {
    hide OldValid, OldWords, Chars, StartOf, OldStart, OldKeyLen, OldValLen, OldPos, OldNull, OldLen, OldFormed;
    var b := OldPack(ps, left, pad);
    OldSize(b);
    OldPackFields(ps, left, pad, i);
    PackedText(ps, i);
    OldFits(b, i);
    NextStart(ps, i);
    var s, m, e := StartOf(ps, i), StartOf(ps, i) + |ps[i].key|, StartOf(ps, i + 1);
    Padded(Chars(ps), pad, s, m);
    Padded(Chars(ps), pad, m, e);
    assert b.text[s..m] == ps[i].key;
    assert ps[i].val.Some? ==> b.text[m..e] == ps[i].val.value && e == m + |ps[i].val.value|;
  }

  lemma {:induction false} Padded(s: string, pad: string, a: int, b: int)
    requires 0 <= a <= b <= |s|
    ensures (s + pad)[a..b] == s[a..b]
  {
  }

  lemma {:induction false} NextStart(ps: seq<Pair>, i: nat)
    requires i < |ps|
    ensures StartOf(ps, i + 1) == StartOf(ps, i) + |ps[i].Text()|
  {
    hide Chars;
    WordsAt(ps, i);
  }

  /** And it accepts no others. */
  lemma {:induction false} OldValidIff(b: Block)
    ensures OldValid(b) <==> exists ps, left, pad :: OldFormed(ps, left, pad) && b == OldPack(ps, left, pad)
  {
    hide OldValid, OldPack, OldFormed;
    if OldValid(b) {
      var ps, left, pad := OldContents(b);
      assert OldFormed(ps, left, pad) && b == OldPack(ps, left, pad);
    }
    if ps, left, pad :| OldFormed(ps, left, pad) && b == OldPack(ps, left, pad) {
      OldPackValid(ps, left, pad);
    }
  }

  ghost function OldPairs(b: Block): (ps: seq<Pair>)
    requires OldValid(b)
    ensures |ps| == b.Count() && forall i :: 0 <= i < |ps| ==> ps[i] == OldPair(b, i)
  {
    seq(b.Count(), i requires 0 <= i < b.Count() => OldPair(b, i))
  }

  /** What the length fields hold, whether used or not. */
  ghost function Leftovers(w: seq<int>): int -> int {
    i => if 0 <= i && 2 * i + 1 < |w| then OldValLen(w, i) else 0
  }

  lemma {:induction false} OldContents(b: Block) returns (ps: seq<Pair>, left: int -> int, pad: string)
    requires OldValid(b)
    ensures OldFormed(ps, left, pad) && b == OldPack(ps, left, pad)
  {
    hide OldValid, OldStart, OldKeyLen, OldValLen, OldPos, OldNull, OldPair, OldPairs, Chars, StartOf, OldWords, OldEnd,
      OldFormed, PairFields, Block.Count;
    OldEndIs(b);
    var n := b.Count();
    ps, left, pad := OldPairs(b), Leftovers(b.words), b.text[OldEnd(b)..];
    forall i | 0 <= i < n ensures PairFields(b, ps[i], i) {
      OldPairFields(b, i);
    }
    OldTexts(b, ps, n);
    assert ps[..n] == ps;
    assert b.text == Chars(ps) + pad;
    OldWordsBack(b, ps, left);
    OldContentsFormed(b, ps, left, pad);
  }

  lemma {:induction false} OldEndIs(b: Block)
    requires OldValid(b)
    ensures |b.words| == 2 * b.Count() && OldEnd(b) == OldStart(b.words, b.Count())
  {
    OldSize(b);
  }

  lemma {:induction false} OldContentsFormed(b: Block, ps: seq<Pair>, left: int -> int, pad: string)
    requires OldValid(b) && |ps| == b.Count() && |b.words| == 2 * b.Count() && b.text == Chars(ps) + pad
    requires forall i :: 0 <= i < |ps| ==> PairFields(b, ps[i], i) && left(i) == OldValLen(b.words, i)
    ensures OldFormed(ps, left, pad) && b.varsize == CalcDataSize(|ps|, |Chars(ps)| + |pad|) && b.size == |ps|
  {
    hide OldStart, Chars, OldPos, OldNull, OldValLen;
    OldSize(b);
    forall i | 0 < i < |ps| ensures |ps[i - 1].key| <= |ps[i].key| {
      assert PairFields(b, ps[i - 1], i - 1) && PairFields(b, ps[i], i);
    }
    forall i | 0 <= i < |ps| ensures |ps[i].key| < 0x1_0000 && 0 <= LengthField(ps[i], left(i)) < 0x1_0000 {
      assert PairFields(b, ps[i], i);
    }
  }

  /** Where the text of the pairs ends. */
  ghost function OldEnd(b: Block): int
    requires OldValid(b)
    ensures 0 <= OldEnd(b) <= |b.text|
  {
    OldSize(b);
    OldStarts(b.words, b.Count(), b.Count());
    OldStart(b.words, b.Count())
  }

  /** The entry i describes p. */
  ghost predicate PairFields(b: Block, p: Pair, i: nat)
    requires 2 * i + 1 < |b.words|
  {
    |p.key| == OldKeyLen(b.words, i) && p.val.None? == OldNull(b.words, i)
    && (p.val.Some? ==> |p.val.value| == OldValLen(b.words, i))
    && 0 <= OldKeyLen(b.words, i) < UINT16_LIMIT && 0 <= OldValLen(b.words, i) < UINT16_LIMIT
  }

  lemma {:induction false} OldPairFields(b: Block, i: nat)
    requires OldValid(b) && i < b.Count()
    ensures |b.words| == 2 * b.Count() && PairFields(b, OldPair(b, i), i)
  {
    hide OldStart;
    OldSize(b);
    OldFits(b, i);
    assert 0 <= b.words[2 * i] < UINT32_LIMIT;
  }

  lemma {:induction false} OldTexts(b: Block, ps: seq<Pair>, i: nat)
    requires OldValid(b) && i <= b.Count() == |ps| && forall j :: 0 <= j < |ps| ==> ps[j] == OldPair(b, j)
    ensures |b.words| == 2 * b.Count() && 0 <= OldStart(b.words, i) <= |b.text|
    ensures Chars(ps[..i]) == b.text[..OldStart(b.words, i)]
  {
    hide OldValid, OldKeyLen, OldValLen, OldPos, OldNull, OldLen, Chars, Block.Count, OldStart, OldPair, Words;
    OldSize(b);
    if i == 0 {
      NoPairs(b.words);
      assert Chars([]) == "" by { NoChars(); }
    } else {
      OldTexts(b, ps, i - 1);
      OldFits(b, i - 1);
      OldLenIs(b, i - 1);
      WordsAt(ps, i - 1);
      OldPairText(b, i - 1);
      var s, e := OldStart(b.words, i - 1), OldStart(b.words, i);
      assert b.text[..e] == b.text[..s] + b.text[s..e];
    }
  }

  lemma {:induction false} NoChars()
    ensures Chars([]) == ""
  {
  }

  lemma {:induction false} OldPairText(b: Block, i: nat)
    requires OldValid(b) && i < b.Count() && |b.words| == 2 * b.Count()
    requires 0 <= OldStart(b.words, i) <= OldStart(b.words, i + 1) <= |b.text|
    ensures OldPair(b, i).Text() == b.text[OldStart(b.words, i)..OldStart(b.words, i + 1)]
  {
    hide OldValid, OldStart, OldKeyLen, OldValLen, OldPos, OldNull, OldLen, Block.Count;
    OldFits(b, i);
    OldLenIs(b, i);
    var s, m, e := OldStart(b.words, i), OldStart(b.words, i) + OldKeyLen(b.words, i), OldStart(b.words, i + 1);
    Joined(b.text, s, m, e);
  }

  lemma {:induction false} OldWordsBack(b: Block, ps: seq<Pair>, left: int -> int)
    requires OldValid(b) && |ps| == b.Count() && |b.words| == 2 * b.Count()
    requires forall i :: 0 <= i < |ps| ==> PairFields(b, ps[i], i) && left(i) == OldValLen(b.words, i)
    requires forall i :: 0 <= i < |ps| ==> ps[i] == OldPair(b, i)
    ensures OldWords(ps, left) == b.words
  {
    hide OldWords, Chars, OldStart, StartOf, OldValid, PairFields, OldPair;
    var w := OldWords(ps, left);
    forall k | 0 <= k < |w| ensures w[k] == b.words[k] {
      var i := k / 2;
      OldTexts(b, ps, i);
      StartIs(ps, i);
      OldLenIs(b, i);
      OldWordsAt(ps, left, i);
      SplitWords(b, ps[i], left(i), i);
      assert k == 2 * i || k == 2 * i + 1;
    }
  }

  lemma {:induction false} SplitWords(b: Block, p: Pair, left: int, i: nat)
    requires 2 * i + 1 < |b.words| && PairFields(b, p, i) && left == OldValLen(b.words, i)
    ensures b.words[2 * i] == |p.key| + 0x1_0000 * LengthField(p, left)
    ensures b.words[2 * i + 1] == 2 * OldPos(b.words, i) + if p.val.None? then 1 else 0
  {
  }

  lemma {:induction false} StartIs(ps: seq<Pair>, i: nat)
    requires i <= |ps|
    ensures StartOf(ps, i) == |Chars(ps[..i])|
  {
  }

  /** Whatever says the same as an old value with ordered keys is the packing of its
      pairs, byte for byte. */
  lemma {:induction false} SamePairsPack(h: HStore, ps: seq<Pair>, left: int -> int, pad: string)
    requires OldFormed(ps, left, pad) && OldValid(OldPack(ps, left, pad)) && SamePairs(h, OldPack(ps, left, pad))
    ensures h == Pack(ps)
  {
    hide OldValid, OldPack, OldFormed, HStore.Layout, HStore.NullsTidy, OldPair, Pack;
    OldPackValid(ps, left, pad);
    TidyIsPack(h);
    assert h.Decode() == ps;
  }

  // ------------------------------------ which values the new format has

  /** A packed value as a pre-release wrote it, without the flag. */
  ghost function Unflagged(ps: seq<Pair>): Block {
    Block(Pack(ps).varsize, |ps|, Pack(ps).entries, Pack(ps).str)
  }

  /** It passes as new, exactly, when its keys are in order, and setting its flag makes
      it the packed value. */
  lemma {:induction false} UnflaggedPasses(ps: seq<Pair>)
    requires ps != [] && Fits(ps) && StrictKeys(ps)
    ensures var b := Unflagged(ps);
      && b.Stored() && PassesAsNew(b) && !b.Flagged() && b.Count() == |ps| && |b.words| == 2 * |ps|
      && CalcDataSize(b.Count(), EndPos(b.words[|b.words| - 1])) == b.varsize
      && Refreshed(b) == Pack(ps)
  {
    hide IsFirst, IsNull, EndPos, StrictKeys, Words, Chars, NewKeyLen;
    var b, h := Unflagged(ps), Pack(ps);
    PackedSize(ps);
    PackLayout(ps);
    LayoutNeighbours(h);
    forall i | 0 < i < |ps| ensures NewKeyLen(b.words, i - 1) <= NewKeyLen(b.words, i) && !IsNull(b.words[2 * i]) {
      UnflaggedKeys(ps, i);
      UnflaggedKeys(ps, i - 1);
      assert |ps[i - 1].key| <= |ps[i].key| by { KeysRise(ps, i); }
    }
  }

  lemma {:induction false} KeysRise(ps: seq<Pair>, i: nat)
    requires StrictKeys(ps) && 0 < i < |ps|
    ensures |ps[i - 1].key| <= |ps[i].key|
  {
    hide Order.StrCmp;
    assert Order.KeyCmp(ps[i - 1].key, ps[i].key) < 0;
  }

  lemma {:induction false} UnflaggedKeys(ps: seq<Pair>, i: nat)
    requires Fits(ps) && i < |ps| && |Pack(ps).entries| == 2 * |ps| && IsFirst(Pack(ps).entries[0])
    ensures NewKeyLen(Pack(ps).entries, i) == |ps[i].key| && !IsNull(Pack(ps).entries[2 * i])
  {
    hide Pack, IsFirst, IsNull, EndPos, StartOf;
    PackedEntries(ps, i);
    if i > 0 {
      PackedEntries(ps, i - 1);
      assert 2 * (i - 1) + 1 == 2 * i - 1;
    } else {
      StartsAtZero(ps);
    }
  }

  // ---------------------------------------------------------- hstoreUpgrade

  datatype Outcome = Unchanged | Fixed(h: HStore) | Invalid

  /** Values that are handed on without a look at either format. */
  predicate FastPath(b: Block) {
    b.Flagged() || b.size == 0 || (b.varsize < 32768 && b.words != [] && IsFirst(b.words[0]))
  }

  /** A new-format value with its flag and length set (HS_SETCOUNT, HS_FIXSIZE). */
  ghost function Refreshed(b: Block): HStore {
    if b.Count() == 0 || b.words == [] then HStore(CalcDataSize(0, 0), NEWVERSION, [], "") else UpgradedFrom(b, b.words)
  }

  /** h says what the old entries of b said. */
  ghost predicate SamePairs(h: HStore, b: Block)
    requires OldValid(b)
  {
    h.Layout() && h.NullsTidy() && |h.entries| / 2 == b.Count()
    && forall i :: 0 <= i < b.Count() ==> h.PairAt(i) == OldPair(b, i)
  }

  /** `hstoreUpgrade` */
  method Upgrade(b: Block, writable: bool) returns (r: Outcome)
    requires b.Stored()
    ensures FastPath(b) ==> r == Unchanged
    ensures !FastPath(b) && OldValid(b) ==> r.Fixed? && SamePairs(r.h, b) && NewValid(r.h.entries, r.h.varsize)
    ensures !FastPath(b) && !OldValid(b) && PassesAsNew(b) ==> r == if writable then Fixed(Refreshed(b)) else Unchanged
    ensures !FastPath(b) && !OldValid(b) && !PassesAsNew(b) ==> r == Invalid
    ensures forall ps, left, pad :: OldFormed(ps, left, pad) && b == OldPack(ps, left, pad) && !FastPath(b) ==>
      r == Fixed(Pack(ps))
    ensures forall ps :: ps != [] && Fits(ps) && StrictKeys(ps) && b == Unflagged(ps) && !OldValid(b) ==>
      r == if FastPath(b) || !writable then Unchanged else Fixed(Pack(ps))
  {
    hide OldValid, PassesAsNew, NewValid, IsFirst, EndPos, Block.Flagged, SamePairs, OldPack, OldFormed, Pack,
      Unflagged, Fits, StrictKeys, Refreshed, FastPath;
    FastPathIs(b);
    forall ps, left, pad | OldFormed(ps, left, pad) && b == OldPack(ps, left, pad) ensures OldValid(b) {
      OldPackValid(ps, left, pad);
    }
    forall ps | ps != [] && Fits(ps) && StrictKeys(ps) && b == Unflagged(ps)
      ensures PassesAsNew(b) && Refreshed(b) == Pack(ps)
    {
      UnflaggedPasses(ps);
    }
    if b.Flagged() || b.size == 0 || (b.varsize < 32768 && b.words != [] && IsFirst(b.words[0])) {
      return Unchanged;
    }
    var valid_new := ValidNewFormat(b);
    var valid_old := ValidOldFormat(b);
    if valid_old == 0 || b.size == 0 {
      if valid_new != 0 {
        if writable {
          var h := Refresh(b);
          return Fixed(h);
        }
        return Unchanged;
      } else {
        return Invalid;
      }
    }
    var h := ConvertCopy(b);
    forall ps, left, pad | OldFormed(ps, left, pad) && b == OldPack(ps, left, pad) ensures h == Pack(ps) {
      SamePairsPack(h, ps, left, pad);
    }
    return Fixed(h);
  }

  lemma {:induction false} FastPathIs(b: Block)
    ensures FastPath(b) <==> b.Flagged() || b.size == 0 || (b.varsize < 32768 && b.words != [] && IsFirst(b.words[0]))
  {
  }

  method Refresh(b: Block) returns (h: HStore)
    requires b.Stored()
    ensures h == Refreshed(b)
  {
    hide EndPos;
    var count := b.Count();
    if count == 0 || b.words == [] {
      return HStore(CalcDataSize(0, 0), 0 + NEWVERSION, [], "");
    }
    var bl := EndPos(b.words[|b.words| - 1]);
    return HStore(CalcDataSize(|b.words| / 2, bl), |b.words| / 2 + NEWVERSION, b.words,
                  if 0 <= bl <= |b.text| then b.text[..bl] else "");
  }

  /** A writable copy of the words, overwritten in place. */
  method ConvertCopy(b: Block) returns (h: HStore)
    requires OldValid(b) && b.size > 0
    ensures SamePairs(h, b) && NewValid(h.entries, h.varsize)
  {
    hide OldValid, NewValid, EndPos, Rewritten, SamePairs;
    OldSize(b);
    var count := b.size;
    var words := new int[|b.words|](i requires 0 <= i < |b.words| => b.words[i]);
    assert words[..] == b.words;
    ghost var w' := Convert(words, count);
    UpgradeKeeps(b, w', words[..]);
    var bl := EndPos(words[2 * count - 1]);
    NonNegativeEnd(words[2 * count - 1]);
    h := HStore(CalcDataSize(count, bl), count + NEWVERSION, words[..], b.text[..bl]);
  }

  /** In-place conversion preserves meaning: the new value is laid out as the
      new format demands and decodes to the pairs the old entries described. */
  lemma {:induction false} UpgradeKeeps(b: Block, w': seq<int>, w: seq<int>)
    requires OldValid(b) && b.Count() > 0 && Rewritten(b.words, w', b.Count()) && w == w'[0 := w'[0] + ISFIRST]
    ensures |w| == 2 * b.Count() && EndPos(w[|w| - 1]) <= |b.text|
    ensures SamePairs(UpgradedFrom(b, w), b)
    ensures NewValid(w, UpgradedFrom(b, w).varsize)
  {
    hide OldValid, NewValid, EndPos, Rewritten, OldPair, HStore.PairAt, HStore.Layout, HStore.NullsTidy, UpgradedFrom,
      OldStart, Block.Count;
    OldSize(b);
    UpgradeLayout(b, w', w);
    UpgradeNulls(b, w', w);
    UpgradeNewValid(b, w', w);
    forall i | 0 <= i < b.Count() ensures UpgradedFrom(b, w).PairAt(i) == OldPair(b, i) {
      UpgradePair(b, w', w, i);
    }
  }

  /** The shortcut takes an old value for a new one exactly when it is small
      and its first value is null with leftovers of 2^15 or more in the unused
      length field; so no old value with a first value in place is misread. */
  lemma {:induction false} FastPathOnOld(b: Block)
    requires OldValid(b) && b.Count() > 0
    ensures |b.words| == 2 * b.Count()
    ensures FastPath(b) <==> b.varsize < 32768 && OldNull(b.words, 0) && OldValLen(b.words, 0) >= 32768
  {
    OldSize(b);
    OldFits(b, 0);
    OldStep(b.words, 0);
    NoPairs(b.words);
    OldStarts(b.words, 1, b.Count());
    var e := b.words[0];
    assert 0 <= e < UINT32_LIMIT;
    assert IsFirst(e) <==> e / UINT16_LIMIT >= 32768;
  }

  /** Such a value: one pair that the test for the old format accepts.  That an old
      release wrote it is not claimed. */
  const LEFTOVER := Block(17, 1, [0x8000_0001, 1], "a")

  /** Its old entry says that the value is null. */
  lemma {:induction false} LeftoverOld()
    ensures OldValid(LEFTOVER) && OldPair(LEFTOVER, 0) == Pair("a", None)
  {
    hide OldValid, OldPair;
    var ps, left := [Pair("a", None)], (i: int) => 0x8000;
    OneText(ps);
    OldPackValid(ps, left, "");
    OldWordsAt(ps, left, 0);
    StartsAtZero(ps);
    assert OldWords(ps, left) == LEFTOVER.words;
    assert Chars(ps) + "" == "a";
    assert OldPack(ps, left, "") == LEFTOVER;
  }

  lemma {:induction false} OneText(ps: seq<Pair>)
    requires |ps| == 1
    ensures Chars(ps) == ps[0].Text()
  {
    assert ps[..0] == [];
  }

  /** The shortcut leaves it alone, and the readers find an empty text. */
  lemma {:induction false} LeftoverMisread()
    ensures var b := LEFTOVER;
      && FastPath(b) && HStore(b.varsize, b.size + NEWVERSION, b.words, b.text).Layout()
      && HStore(b.varsize, b.size + NEWVERSION, b.words, b.text).PairAt(0) == Pair("a", Some(""))
  {
    var b := LEFTOVER;
    assert b.words[0] == 0x8000_0001 && b.words[1] == 1;
    assert IsFirst(b.words[0]) && !IsFirst(b.words[1]) && !IsNull(b.words[1]);
    assert EndPos(b.words[0]) == 1 && EndPos(b.words[1]) == 1;
    var h := HStore(b.varsize, b.size + NEWVERSION, b.words, b.text);
    assert h.Layout() by { hide EndPos, IsFirst; }
    assert h.str[0..1] == "a" && h.str[1..1] == "";
  }
}
