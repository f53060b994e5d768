/** The gist__intbig_ops operator class: a key is a signature of 2016 bits, the
    bit HASHVAL(v) set for every element v below it; a full signature is stored
    as a flag.  Signatures are lossy, so every scan is rechecked, and what is
    proved is that no match is lost. */
module IntBig {
  import opened Common
  import opened IntRanges
  import opened IntSets
  import opened BoolQuery
  import opened Gist
  import GistInsert
  import IntGist

  const SIGLEN := 252
  const SIGLENBIT := 2016

  // ----------------------------------------------------------------- bits

  predicate ByteBit(x: bv8, k: int)
    requires 0 <= k < 8
  {
    (x >> k) & 1 != 0
  }

  lemma {:induction false} OrBit(x: bv8, y: bv8, k: int)
    requires 0 <= k < 8
    ensures ByteBit(x | y, k) <==> ByteBit(x, k) || ByteBit(y, k)
  {
    ShiftOr(x, y, k);
    LowOr(x >> k, y >> k);
  }

  lemma {:induction false} ShiftOr(x: bv8, y: bv8, k: int)
    requires 0 <= k < 8
    ensures (x | y) >> k == (x >> k) | (y >> k)
  {
  }

  lemma {:induction false} LowOr(u: bv8, v: bv8)
    ensures (u | v) & 1 != 0 <==> u & 1 != 0 || v & 1 != 0
  {
  }

  lemma {:induction false} OneBit(k: int, j: int)
    requires 0 <= k < 8 && 0 <= j < 8
    ensures ByteBit(1 << k, j) <==> k == j
  {
    if k == 0 {} else if k == 1 {} else if k == 2 {} else if k == 3 {}
    else if k == 4 {} else if k == 5 {} else if k == 6 {} else {}
  }

  lemma {:induction false} XorBit(x: bv8, y: bv8, k: int)
    requires 0 <= k < 8
    ensures ByteBit(x ^ y, k) <==> ByteBit(x, k) != ByteBit(y, k)
  {
    ShiftXor(x, y, k);
    LowXor(x >> k, y >> k);
  }

  lemma {:induction false} ShiftXor(x: bv8, y: bv8, k: int)
    requires 0 <= k < 8
    ensures (x ^ y) >> k == (x >> k) ^ (y >> k)
  {
  }

  lemma {:induction false} LowXor(u: bv8, v: bv8)
    ensures (u ^ v) & 1 != 0 <==> (u & 1 != 0) != (v & 1 != 0)
  {
  }

  /** Bytes differ exactly when some bit does. */
  lemma {:induction false} SameByte(x: bv8, y: bv8)
    requires forall k :: 0 <= k < 8 ==> ByteBit(x, k) == ByteBit(y, k)
    ensures x == y
  {
    assert ByteBit(x, 0) == ByteBit(y, 0) && ByteBit(x, 1) == ByteBit(y, 1);
    assert ByteBit(x, 2) == ByteBit(y, 2) && ByteBit(x, 3) == ByteBit(y, 3);
    assert ByteBit(x, 4) == ByteBit(y, 4) && ByteBit(x, 5) == ByteBit(y, 5);
    assert ByteBit(x, 6) == ByteBit(y, 6) && ByteBit(x, 7) == ByteBit(y, 7);
  }

  lemma {:induction false} FullByte(k: int)
    requires 0 <= k < 8
    ensures ByteBit(0xff, k) && !ByteBit(0, k)
  {
    if k == 0 {} else if k == 1 {} else if k == 2 {} else if k == 3 {}
    else if k == 4 {} else if k == 5 {} else if k == 6 {} else {}
  }

  /** No bit of x outside y. */
  lemma {:induction false} InsideByte(x: bv8, y: bv8)
    requires forall k :: 0 <= k < 8 && ByteBit(x, k) ==> ByteBit(y, k)
    ensures x & !y == 0
  {
    assert (ByteBit(x, 0) ==> ByteBit(y, 0)) && (ByteBit(x, 1) ==> ByteBit(y, 1));
    assert (ByteBit(x, 2) ==> ByteBit(y, 2)) && (ByteBit(x, 3) ==> ByteBit(y, 3));
    assert (ByteBit(x, 4) ==> ByteBit(y, 4)) && (ByteBit(x, 5) ==> ByteBit(y, 5));
    assert (ByteBit(x, 6) ==> ByteBit(y, 6)) && (ByteBit(x, 7) ==> ByteBit(y, 7));
  }

  lemma {:induction false} OutsideByte(x: bv8, y: bv8, k: int)
    requires 0 <= k < 8 && x & !y == 0 && ByteBit(x, k)
    ensures ByteBit(y, k)
  {
    if k == 0 {} else if k == 1 {} else if k == 2 {} else if k == 3 {}
    else if k == 4 {} else if k == 5 {} else if k == 6 {} else {}
  }

  // ----------------------------------------------------------- signatures

  /** GETBIT */
  predicate GetBit(s: seq<bv8>, j: int) {
    0 <= j < 8 * |s| && ByteBit(s[j / 8], j % 8)
  }

  /** HASHVAL: the element as an unsigned int, modulo the signature length. */
  function HashVal(v: int): (h: int)
    ensures 0 <= h < SIGLENBIT
  {
    (v % 0x1_0000_0000) % SIGLENBIT
  }

  /** Every bit has an element, its own number, and two elements share a bit exactly
      when they differ, as unsigned ints, by a multiple of 2016. */
  lemma {:induction false} HashSpread(j: int)
    requires 0 <= j < SIGLENBIT
    ensures HashVal(j) == j
  {
  }

  lemma {:induction false} HashesMeet(v: int, w: int)
    requires -0x8000_0000 <= v <= 0x7fff_ffff && -0x8000_0000 <= w <= 0x7fff_ffff
    ensures HashVal(v) == HashVal(w) <==> (Unsigned(v) - Unsigned(w)) % 2016 == 0
  {
    assert v % 0x1_0000_0000 == Unsigned(v) && w % 0x1_0000_0000 == Unsigned(w);
    SameRemainderIff(Unsigned(v), Unsigned(w));
  }

  function Unsigned(v: int): int {
    if v < 0 then v + 0x1_0000_0000 else v
  }

  lemma {:induction false} SameRemainderIff(x: int, y: int)
    ensures x % SIGLENBIT == y % SIGLENBIT <==> (x - y) % SIGLENBIT == 0
  {
  }

  ghost function Hashes(a: seq<int>): set<int> {
    set v | v in a :: HashVal(v)
  }

  /** HASH: sets the bit of one element. */
  method HashInto(sign: array<bv8>, v: int)
    requires sign.Length == SIGLEN
    modifies sign
    ensures forall j :: GetBit(sign[..], j) <==> GetBit(old(sign[..]), j) || j == HashVal(v)
  {
    var h := HashVal(v);
    ghost var was := sign[..];
    sign[h / 8] := sign[h / 8] | (1 << (h % 8));
    assert sign[..] == was[h / 8 := was[h / 8] | (1 << (h % 8))];
    forall j ensures GetBit(sign[..], j) <==> GetBit(was, j) || j == h {
      SetBitAt(was, h, j);
    }
  }

  lemma {:induction false} SetBitAt(s: seq<bv8>, h: int, j: int)
    requires 0 <= h < 8 * |s|
    ensures GetBit(s[h / 8 := s[h / 8] | (1 << (h % 8))], j) <==> GetBit(s, j) || j == h
  {
    if 0 <= j < 8 * |s| && j / 8 == h / 8 {
      OrBit(s[h / 8], 1 << (h % 8), j % 8);
      OneBit(h % 8, j % 8);
    }
  }

  method MakeSign(a: seq<int>) returns (s: seq<bv8>)
    ensures |s| == SIGLEN && forall j :: GetBit(s, j) <==> j in Hashes(a)
  {
    hide GetBit;
    var sign := new bv8[SIGLEN](_ => 0);
    NoBits(sign[..]);
    var n := 0;
    while n < |a|
      invariant 0 <= n <= |a|
      invariant forall j :: GetBit(sign[..], j) <==> j in Hashes(a[..n])
    {
      HashInto(sign, a[n]);
      HashesSnoc(a, n);
      n := n + 1;
    }
    assert a[..n] == a;
    return sign[..];
  }

  lemma {:induction false} NoBits(s: seq<bv8>)
    requires forall i :: 0 <= i < |s| ==> s[i] == 0
    ensures forall j :: !GetBit(s, j)
  {
    forall j ensures !GetBit(s, j) {
      FullByte(j % 8);
    }
  }

  lemma {:induction false} HashesSnoc(a: seq<int>, n: nat)
    requires n < |a|
    ensures Hashes(a[..n + 1]) == Hashes(a[..n]) + {HashVal(a[n])}
  {
    assert a[..n + 1] == a[..n] + [a[n]];
  }

  // ----------------------------------------------------------------- keys

  datatype Key = AllTrue | Sign(bytes: seq<bv8>)

  predicate Valid(k: Key) {
    k.Sign? ==> |k.bytes| == SIGLEN
  }

  predicate Bit(k: Key, j: int) {
    0 <= j < SIGLENBIT && (k.AllTrue? || GetBit(k.bytes, j))
  }

  function Bits(k: Key): set<int> {
    set j | 0 <= j < SIGLENBIT && Bit(k, j)
  }

  ghost predicate IsKey(k: Key, row: seq<int>) {
    Valid(k) && Bits(k) == Hashes(row)
  }

  ghost predicate Above(k: Key, c: Key) {
    Valid(k) && Bits(c) <= Bits(k)
  }

  ghost predicate Covers(k: Key, row: seq<int>) {
    Valid(k) && Hashes(row) <= Bits(k)
  }

  /** `g_intbig_compress` of a leaf. */
  method CompressLeaf(row: seq<int>) returns (k: Key)
    ensures IsKey(k, row)
  {
    var s := MakeSign(row);
    return Sign(s);
  }

  /** `g_intbig_compress` of an inner key: the flag replaces a full signature and
      no other. */
  method CompressInner(k: Key) returns (r: Key)
    requires Valid(k)
    ensures Valid(r) && Bits(r) == Bits(k)
    ensures r.AllTrue? <==> forall j :: 0 <= j < SIGLENBIT ==> j in Bits(k)
  {
    if k.AllTrue? {
      return k;
    }
    var i := 0;
    while i < SIGLEN
      invariant 0 <= i <= SIGLEN && forall n :: 0 <= n < i ==> k.bytes[n] == 0xff
    {
      if k.bytes[i] & 0xff != 0xff {
        ghost var j := MissingBit(k.bytes, i);
        assert j !in Bits(k);
        return k;
      }
      i := i + 1;
    }
    forall j | 0 <= j < SIGLENBIT ensures GetBit(k.bytes, j) {
      FullByte(j % 8);
    }
    return AllTrue;
  }

  lemma {:induction false} MissingBit(s: seq<bv8>, i: nat) returns (j: int)
    requires i < |s| && s[i] & 0xff != 0xff
    ensures 0 <= j < 8 * |s| && !GetBit(s, j)
  {
    if forall k :: 0 <= k < 8 ==> ByteBit(s[i], k) {
      forall k | 0 <= k < 8 ensures ByteBit(s[i], k) == ByteBit(0xff, k) {
        FullByte(k);
      }
      SameByte(s[i], 0xff);
      assert false;
    }
    var k :| 0 <= k < 8 && !ByteBit(s[i], k);
    j := 8 * i + k;
  }

  /** `unionkey` */
  method UnionKey(base: array<bv8>, add: Key) returns (full: bool)
    requires base.Length == SIGLEN && Valid(add)
    modifies base
    ensures full <==> add.AllTrue?
    ensures full ==> base[..] == old(base[..])
    ensures !full ==> forall j :: GetBit(base[..], j) <==> GetBit(old(base[..]), j) || GetBit(add.bytes, j)
  {
    hide GetBit;
    if add.AllTrue? {
      return true;
    }
    ghost var was := base[..];
    var i := 0;
    while i < SIGLEN
      invariant 0 <= i <= SIGLEN
      invariant forall n :: 0 <= n < SIGLEN ==> base[n] == if n < i then was[n] | add.bytes[n] else was[n]
    {
      base[i] := base[i] | add.bytes[i];
      i := i + 1;
    }
    OrBytes(was, add.bytes, base[..]);
    return false;
  }

  lemma {:induction false} OrBytes(a: seq<bv8>, b: seq<bv8>, s: seq<bv8>)
    requires |a| == |b| == |s| && forall n :: 0 <= n < |s| ==> s[n] == a[n] | b[n]
    ensures forall j :: GetBit(s, j) <==> GetBit(a, j) || GetBit(b, j)
  {
    forall j ensures GetBit(s, j) <==> GetBit(a, j) || GetBit(b, j) {
      if 0 <= j < 8 * |s| {
        OrBit(a[j / 8], b[j / 8], j % 8);
      }
    }
  }

  ghost function AllBits(entries: seq<Key>): set<int> {
    if entries == [] then {} else AllBits(entries[..|entries| - 1]) + Bits(entries[|entries| - 1])
  }

  /** `g_intbig_union` */
  method Union(entries: seq<Key>) returns (k: Key)
    requires forall i :: 0 <= i < |entries| ==> Valid(entries[i])
    ensures Valid(k) && Bits(k) == AllBits(entries)
  {
    hide GetBit;
    var base := new bv8[SIGLEN](_ => 0);
    NoBits(base[..]);
    var i := 0;
    while i < |entries|
      invariant 0 <= i <= |entries| && Bits(Sign(base[..])) == AllBits(entries[..i])
    {
      ghost var was := base[..];
      var full := UnionKey(base, entries[i]);
      assert entries[..i + 1][..i] == entries[..i];
      if full {
        FullUnion(entries, i);
        return AllTrue;
      }
      UnionBits(was, base[..], entries[i].bytes);
      i := i + 1;
    }
    assert entries[..i] == entries;
    return Sign(base[..]);
  }

  lemma {:induction false} UnionBits(was: seq<bv8>, now: seq<bv8>, add: seq<bv8>)
    requires forall j :: GetBit(now, j) <==> GetBit(was, j) || GetBit(add, j)
    ensures Bits(Sign(now)) == Bits(Sign(was)) + Bits(Sign(add))
  {
    hide GetBit;
  }

  lemma {:induction false} FullUnion(entries: seq<Key>, i: nat)
    requires i < |entries| && entries[i].AllTrue?
    ensures AllBits(entries) == Bits(AllTrue)
  {
    hide GetBit;
    BitsInRange(entries);
    EachInAll(entries, i);
  }

  lemma {:induction false} BitsInRange(entries: seq<Key>)
    ensures AllBits(entries) <= Bits(AllTrue)
  {
    hide GetBit;
    if entries != [] {
      BitsInRange(entries[..|entries| - 1]);
    }
  }

  lemma {:induction false} EachInAll(entries: seq<Key>, i: nat)
    requires i < |entries|
    ensures Bits(entries[i]) <= AllBits(entries)
  {
    hide Bits;
    if i < |entries| - 1 {
      EachInAll(entries[..|entries| - 1], i);
    }
  }

  /** An inner key as it is stored: `gistunion` or the union of
      `gistgetadjusted`, then `g_intbig_compress`. */
  method StoreInner(entries: seq<Key>) returns (k: Key)
    requires forall i :: 0 <= i < |entries| ==> Valid(entries[i])
    ensures GistInsert.Unites(Valid, Above, entries, Some(k)) && Bits(k) == AllBits(entries)
  {
    hide Bits;
    var u := Union(entries);
    k := CompressInner(u);
    forall i | 0 <= i < |entries| ensures Above(k, entries[i]) {
      EachInAll(entries, i);
    }
  }

  /** `g_intbig_same` */
  method SameKeys(a: Key, b: Key) returns (r: bool)
    requires Valid(a) && Valid(b)
    ensures r <==> a == b
  {
    if a.AllTrue? && b.AllTrue? {
      return true;
    } else if a.AllTrue? || b.AllTrue? {
      return false;
    }
    var i := 0;
    while i < SIGLEN
      invariant 0 <= i <= SIGLEN && a.bytes[..i] == b.bytes[..i]
    {
      if a.bytes[i] != b.bytes[i] {
        return false;
      }
      i := i + 1;
    }
    assert a.bytes[..i] == a.bytes && b.bytes[..i] == b.bytes;
    return true;
  }

  lemma {:induction false} AllOfTwo(a: Key, b: Key)
    ensures AllBits([a, b]) == Bits(a) + Bits(b)
  {
    hide Bits;
    assert [a, b][..1] == [a] && [a][..0] == [];
    assert AllBits([a]) == AllBits([]) + Bits(a);
  }

  /** `gistgetadjusted` for this class. */
  method Adjust(was: Key, add: Key) returns (r: GistInsert.Adjusted<Key>)
    requires Valid(was) && Valid(add)
    ensures GistInsert.Adjusts(Valid, Above, was, add, r) && !r.NotRaised?
    ensures r.Raised? ==> Bits(r.key) == Bits(was) + Bits(add)
  {
    hide Bits;
    var entries := [was, add];
    var u := Union(entries);
    AllOfTwo(was, add);
    var same := SameKeys(was, u);
    if same {
      return GistInsert.Enough;
    }
    u := CompressInner(u);
    return GistInsert.Raised(u);
  }

  // ----------------------------------------------------- Hamming distance

  function Ones(x: bv8, k: nat): nat
    requires k <= 8
  {
    if k == 0 then 0 else Ones(x, k - 1) + if ByteBit(x, k - 1) then 1 else 0
  }

  ghost function LowBits(s: seq<bv8>, m: int): set<int> {
    set j | 0 <= j < m && GetBit(s, j)
  }

  lemma {:induction false} CountByte(s: seq<bv8>, i: nat, k: nat)
    requires i < |s| && k <= 8
    ensures |LowBits(s, 8 * i + k)| == |LowBits(s, 8 * i)| + Ones(s[i], k)
  {
    if k > 0 {
      hide ByteBit, LowBits, GetBit;
      CountByte(s, i, k - 1);
      CountBit(s, 8 * i + k - 1);
      BitOfByte(s, i, k - 1);
    }
  }

  lemma {:induction false} BitOfByte(s: seq<bv8>, i: nat, k: nat)
    requires i < |s| && k < 8
    ensures GetBit(s, 8 * i + k) <==> ByteBit(s[i], k)
  {
  }

  lemma {:induction false} CountBit(s: seq<bv8>, j: nat)
    ensures |LowBits(s, j + 1)| == |LowBits(s, j)| + if GetBit(s, j) then 1 else 0
  {
    hide GetBit;
    assert LowBits(s, j + 1) == if GetBit(s, j) then LowBits(s, j) + {j} else LowBits(s, j);
  }

  /** `sizebitvec` */
  method SizeBitVec(s: seq<bv8>) returns (size: int)
    requires |s| == SIGLEN
    ensures size == |Bits(Sign(s))|
  {
    size := 0;
    var i := 0;
    while i < SIGLEN
      invariant 0 <= i <= SIGLEN && size == |LowBits(s, 8 * i)|
    {
      CountByte(s, i, 8);
      size := size + Ones(s[i], 8);
      i := i + 1;
    }
    assert LowBits(s, SIGLENBIT) == Bits(Sign(s));
  }

  /** How many bits two keys disagree in. */
  function Distance(a: Key, b: Key): int {
    |set j | 0 <= j < SIGLENBIT && Bit(a, j) != Bit(b, j)|
  }

  /** `hemdistsign` */
  method HemDistSign(a: seq<bv8>, b: seq<bv8>) returns (dist: int)
    requires |a| == |b| == SIGLEN
    ensures dist == Distance(Sign(a), Sign(b))
  {
    dist := 0;
    ghost var d := seq(SIGLEN, n requires 0 <= n < SIGLEN => a[n] ^ b[n]);
    var i := 0;
    while i < SIGLEN
      invariant 0 <= i <= SIGLEN && dist == |LowBits(d, 8 * i)|
    {
      CountByte(d, i, 8);
      dist := dist + Ones(a[i] ^ b[i], 8);
      i := i + 1;
    }
    XorBytes(a, b, d);
  }

  lemma {:induction false} XorBytes(a: seq<bv8>, b: seq<bv8>, d: seq<bv8>)
    requires |a| == |b| == |d| == SIGLEN && forall n :: 0 <= n < SIGLEN ==> d[n] == a[n] ^ b[n]
    ensures |LowBits(d, SIGLENBIT)| == Distance(Sign(a), Sign(b))
  {
    forall j | 0 <= j < SIGLENBIT ensures GetBit(d, j) <==> GetBit(a, j) != GetBit(b, j) {
      XorBit(a[j / 8], b[j / 8], j % 8);
    }
    assert LowBits(d, SIGLENBIT) == set j | 0 <= j < SIGLENBIT && Bit(Sign(a), j) != Bit(Sign(b), j);
  }

  /** `hemdist` */
  method HemDist(a: Key, b: Key) returns (dist: int)
    requires Valid(a) && Valid(b)
    ensures dist == Distance(a, b)
  {
    if a.AllTrue? {
      if b.AllTrue? {
        assert (set j | 0 <= j < SIGLENBIT && Bit(a, j) != Bit(b, j)) == {};
        return 0;
      }
      var size := SizeBitVec(b.bytes);
      FarFromFull(a, b);
      return SIGLENBIT - size;
    } else if b.AllTrue? {
      var size := SizeBitVec(a.bytes);
      FarFromFull(b, a);
      return SIGLENBIT - size;
    }
    dist := HemDistSign(a.bytes, b.bytes);
  }

  lemma {:induction false} FarFromFull(a: Key, b: Key)
    requires a.AllTrue?
    ensures Distance(a, b) == Distance(b, a) == SIGLENBIT - |Bits(b)|
  {
    hide GetBit;
    var d := set j | 0 <= j < SIGLENBIT && Bit(a, j) != Bit(b, j);
    assert d == set j | 0 <= j < SIGLENBIT && Bit(b, j) != Bit(a, j);
    assert Interval(0, SIGLENBIT - 1) == d + Bits(b) && d !! Bits(b);
  }

  // ----------------------------------------------------------- picksplit

  function KeyOf(full: bool, bytes: seq<bv8>): Key {
    if full then AllTrue else Sign(bytes)
  }

  /** One side of the split takes an entry; a full signature stays in place of
      the flag when only the entry has it. */
  method JoinInto(full: bool, sign: array<bv8>, add: Key)
    requires sign.Length == SIGLEN && Valid(add)
    modifies sign
    ensures Bits(KeyOf(full, sign[..])) == Bits(KeyOf(full, old(sign[..]))) + Bits(add)
  {
    hide GetBit;
    ghost var was := sign[..];
    if full || add.AllTrue? {
      if !full {
        SetAll(sign);
      }
    } else {
      var flag := UnionKey(sign, add);
      UnionBits(was, sign[..], add.bytes);
    }
  }

  method SetAll(sign: array<bv8>)
    requires sign.Length == SIGLEN
    modifies sign
    ensures Bits(Sign(sign[..])) == Bits(AllTrue)
  {
    var i := 0;
    while i < SIGLEN
      invariant 0 <= i <= SIGLEN && forall n :: 0 <= n < i ==> sign[n] == 0xff
    {
      sign[i] := 0xff;
      i := i + 1;
    }
    forall j | 0 <= j < SIGLENBIT ensures GetBit(sign[..], j) {
      FullByte(j % 8);
    }
  }

  method CopySign(k: Key) returns (sign: array<bv8>)
    requires Valid(k)
    ensures fresh(sign) && sign.Length == SIGLEN && KeyOf(k.AllTrue?, sign[..]) == k
  {
    if k.AllTrue? {
      sign := new bv8[SIGLEN](_ => 0);
    } else {
      var b := k.bytes;
      sign := new bv8[SIGLEN](i requires 0 <= i < |b| => b[i]);
      assert sign[..] == b;
    }
  }

  function PairDistance(entries: seq<Key>, i: int, j: int): real {
    if 0 <= i < |entries| && 0 <= j < |entries| then Distance(entries[i], entries[j]) as real else 0.0
  }

  function Cost(entries: seq<Key>, l: Key, r: Key, i: int): real {
    if 0 <= i < |entries| then
      var d := Distance(l, entries[i]) - Distance(r, entries[i]);
      (if d < 0 then -d else d) as real
    else 0.0
  }

  lemma {:induction false} UnionJoins(u: Key, k: Key, x: Key)
    requires Valid(u) && Bits(u) == Bits(k) + Bits(x)
    ensures Joins(Above, u, k, x)
  {
    hide Bits;
  }

  /** `g_intbig_picksplit` */
  method PickSplit(entries: seq<Key>) returns (left: seq<int>, right: seq<int>, l: Key, r: Key)
    requires |entries| >= 3 && forall i :: 0 <= i < |entries| ==> Valid(entries[i])
    ensures Valid(l) && Valid(r) && SplitOk(entries, Above, left, right, l, r)
    ensures SplitTight(entries, Above, left, right, l, r)
  {
    hide SplitOk, SplitTight, Dealt, Bits, Offsets, InOrder, Distance, GetBit, PairDistance, Cost, Joins;
    var n := |entries| - 1;
    var seed1, seed2 := PickSeeds(n, (i, j) => PairDistance(entries, i, j));
    var fullL, fullR := entries[seed1].AllTrue?, entries[seed2].AllTrue?;
    var signL := CopySign(entries[seed1]);
    var signR := CopySign(entries[seed2]);
    l, r := KeyOf(fullL, signL[..]), KeyOf(fullR, signR[..]);
    var order := SortOffsets(n, (i, j) => Cost(entries, l, r, i) <= Cost(entries, l, r, j));
    left, right := [], [];
    DealStart(entries, Above, order, seed1, seed2, l, r);
    var k := 0;
    while k < |order|
      invariant 0 <= k <= |order| && l == KeyOf(fullL, signL[..]) && r == KeyOf(fullR, signR[..])
      invariant Dealt(entries, Above, order, k, left, right, seed1, seed2, l, r)
    {
      OffsetBounds(order, n, k);
      var j := order[k];
      if j == seed1 {
        DealtSeed(entries, Above, order, k, left, right, seed1, seed2, l, r);
        DealLeft(entries, Above, order, k, left, right, seed1, seed2, l, r, l);
        left := left + [j];
      } else if j == seed2 {
        DealtSeed(entries, Above, order, k, left, right, seed1, seed2, l, r);
        DealRight(entries, Above, order, k, left, right, seed1, seed2, l, r, r);
        right := right + [j];
      } else {
        var alpha := HemDist(l, entries[j]);
        var beta := HemDist(r, entries[j]);
        if alpha as real < beta as real + Wish(|left|, |right|, 0.00001) {
          JoinInto(fullL, signL, entries[j]);
          ghost var l' := KeyOf(fullL, signL[..]);
          UnionJoins(l', l, entries[j]);
          DealLeft(entries, Above, order, k, left, right, seed1, seed2, l, r, l');
          l, left := KeyOf(fullL, signL[..]), left + [j];
        } else {
          JoinInto(fullR, signR, entries[j]);
          ghost var r' := KeyOf(fullR, signR[..]);
          UnionJoins(r', r, entries[j]);
          DealRight(entries, Above, order, k, left, right, seed1, seed2, l, r, r');
          r, right := KeyOf(fullR, signR[..]), right + [j];
        }
      }
      k := k + 1;
    }
    DealtAll(entries, Above, order, left, right, seed1, seed2, l, r);
  }

  /** The split with its keys stored. */
  method StoreSplit(entries: seq<Key>) returns (p: GistInsert.Split<Key>)
    requires |entries| >= 3 && forall i :: 0 <= i < |entries| ==> Valid(entries[i])
    ensures GistInsert.Halves(Valid, Above, entries, Some(p))
  {
    hide Bits, SplitTight, Offsets;
    var left, right, l, r := PickSplit(entries);
    var sl := CompressInner(l);
    var sr := CompressInner(r);
    RaiseKey(entries, Above, left, l, sl);
    RaiseKey(entries, Above, right, r, sr);
    p := GistInsert.Split(left, right, sl, sr);
  }

  // ------------------------------------------------------------- queries

  ghost predicate LeafTest(q: IntGist.Query, k: Key)
    requires IntGist.Proper(q)
  {
    k.AllTrue?
    || match q
       case Overlap(a) => Bits(k) * Hashes(a) != {}
       case Same(a) => a != [] && Bits(k) == Hashes(a)
       case Contains(a) => a != [] && Hashes(a) <= Bits(k)
       case ContainedBy(a) => a != [] && Bits(k) <= Hashes(a)
       case Boolean(items) => Execute(items, |items| - 1, false, (i: int, v: int) => Bit(k, HashVal(v)))
  }

  ghost predicate InnerTest(q: IntGist.Query, k: Key)
    requires IntGist.Proper(q)
  {
    k.AllTrue?
    || match q
       case Overlap(a) => Bits(k) * Hashes(a) != {}
       case Same(a) => a != [] && Hashes(a) <= Bits(k)
       case Contains(a) => a != [] && Hashes(a) <= Bits(k)
       case ContainedBy(a) => Bits(k) * Hashes(a) != {}
       case Boolean(items) => Execute(items, |items| - 1, false, (i: int, v: int) => Bit(k, HashVal(v)))
  }

  /** `_intbig_overlap` */
  method SignOverlap(k: Key, a: seq<int>) returns (r: bool)
    ensures r <==> Bits(k) * Hashes(a) != {}
  {
    hide GetBit;
    var n := 0;
    while n < |a|
      invariant 0 <= n <= |a| && forall i :: 0 <= i < n ==> HashVal(a[i]) !in Bits(k)
    {
      if Bit(k, HashVal(a[n])) {
        assert HashVal(a[n]) in Bits(k) * Hashes(a);
        return true;
      }
      n := n + 1;
    }
    return false;
  }

  /** `_intbig_contains` */
  method SignContains(k: Key, a: seq<int>) returns (r: bool)
    ensures r <==> Hashes(a) <= Bits(k)
  {
    hide GetBit;
    var n := 0;
    while n < |a|
      invariant 0 <= n <= |a| && forall i :: 0 <= i < n ==> HashVal(a[i]) in Bits(k)
    {
      if !Bit(k, HashVal(a[n])) {
        assert HashVal(a[n]) in Hashes(a) && HashVal(a[n]) !in Bits(k);
        return false;
      }
      n := n + 1;
    }
    return true;
  }

  /** The byte loop of equality on a leaf. */
  method SameSign(de: seq<bv8>, dq: seq<bv8>) returns (r: bool)
    requires |de| == |dq| == SIGLEN
    ensures r <==> Bits(Sign(de)) == Bits(Sign(dq))
  {
    var i := 0;
    while i < SIGLEN
      invariant 0 <= i <= SIGLEN && de[..i] == dq[..i]
    {
      if de[i] != dq[i] {
        ghost var k := DifferentBit(de[i], dq[i]);
        BitOfByte(de, i, k);
        BitOfByte(dq, i, k);
        assert (8 * i + k in Bits(Sign(de))) != (8 * i + k in Bits(Sign(dq)));
        return false;
      }
      i := i + 1;
    }
    assert de[..SIGLEN] == de && dq[..SIGLEN] == dq;
    return true;
  }

  lemma {:induction false} DifferentBit(x: bv8, y: bv8) returns (k: int)
    requires x != y
    ensures 0 <= k < 8 && ByteBit(x, k) != ByteBit(y, k)
  {
    if forall k :: 0 <= k < 8 ==> ByteBit(x, k) == ByteBit(y, k) {
      SameByte(x, y);
      assert false;
    }
    k :| 0 <= k < 8 && ByteBit(x, k) != ByteBit(y, k);
  }

  /** The byte loop of containment on a leaf. */
  method InsideSign(de: seq<bv8>, dq: seq<bv8>) returns (r: bool)
    requires |de| == |dq| == SIGLEN
    ensures r <==> Bits(Sign(de)) <= Bits(Sign(dq))
  {
    var i := 0;
    while i < SIGLEN
      invariant 0 <= i <= SIGLEN && forall n :: 0 <= n < i ==> de[n] & !dq[n] == 0
    {
      if de[i] & !dq[i] != 0 {
        ghost var k := OutsideBit(de[i], dq[i]);
        BitOfByte(de, i, k);
        BitOfByte(dq, i, k);
        assert 8 * i + k in Bits(Sign(de)) && 8 * i + k !in Bits(Sign(dq));
        return false;
      }
      i := i + 1;
    }
    forall j | j in Bits(Sign(de)) ensures j in Bits(Sign(dq)) {
      OutsideByte(de[j / 8], dq[j / 8], j % 8);
    }
    return true;
  }

  lemma {:induction false} OutsideBit(x: bv8, y: bv8) returns (k: int)
    requires x & !y != 0
    ensures 0 <= k < 8 && ByteBit(x, k) && !ByteBit(y, k)
  {
    if forall k :: 0 <= k < 8 && ByteBit(x, k) ==> ByteBit(y, k) {
      InsideByte(x, y);
      assert false;
    }
    k :| 0 <= k < 8 && ByteBit(x, k) && !ByteBit(y, k);
  }

  lemma {:induction false} SignBits(s: seq<bv8>, a: seq<int>)
    requires |s| == SIGLEN && forall j :: GetBit(s, j) <==> j in Hashes(a)
    ensures Bits(Sign(s)) == Hashes(a)
  {
    hide GetBit;
  }

  /** `g_intbig_consistent` */
  method Consistent(key: Key, q: IntGist.Query, leaf: bool) returns (r: bool, recheck: bool)
    requires Valid(key) && IntGist.Proper(q)
    ensures recheck
    ensures r <==> if leaf then LeafTest(q, key) else InnerTest(q, key)
  {
    hide Bits, Execute;
    recheck := true;
    if key.AllTrue? {
      return true, true;
    }
    match q {
      case Boolean(items) =>
        r := Execute(items, |items| - 1, false, (i: int, v: int) => Bit(key, HashVal(v)));
        return;
      case _ =>
    }
    if q.a == [] {
      assert Hashes([]) == {};
      return false, true;
    }
    match q
    case Overlap(a) =>
      r := SignOverlap(key, a);
    case Same(a) =>
      if leaf {
        var qp := MakeSign(a);
        SignBits(qp, a);
        r := SameSign(key.bytes, qp);
      } else {
        r := SignContains(key, a);
      }
    case Contains(a) =>
      r := SignContains(key, a);
    case ContainedBy(a) =>
      if leaf {
        var qp := MakeSign(a);
        SignBits(qp, a);
        r := InsideSign(key.bytes, qp);
      } else {
        r := SignOverlap(key, a);
      }
  }

  // ------------------------------------------------------------ the scan

  lemma {:induction false} HashesGrow(a: seq<int>, b: seq<int>)
    requires Elems(a) <= Elems(b)
    ensures Hashes(a) <= Hashes(b)
  {
    forall v | v in a ensures HashVal(v) in Hashes(b) {
      assert v in Elems(a);
    }
  }

  /** A key above a match passes the inner test, and its own key the leaf test. */
  lemma {:induction false} TestsSound(q: IntGist.Query, k: Key, row: seq<int>)
    requires IntGist.Proper(q) && Covers(k, row) && IntGist.Matches(q, row) && (q.Same? ==> q.a != [])
    ensures InnerTest(q, k)
    ensures IsKey(k, row) ==> LeafTest(q, k)
  {
    hide Bits, Execute, HashVal;
    match q
    case Overlap(a) =>
      var v := Pick(Elems(row) * Elems(a));
      assert HashVal(v) in Hashes(row) && HashVal(v) in Hashes(a);
      assert HashVal(v) in Bits(k) * Hashes(a);
    case Same(a) => SameElems(row, a); HashesGrow(a, row); HashesGrow(row, a);
    case Contains(a) => HashesGrow(a, row);
    case ContainedBy(a) => HashesGrow(row, a); assert HashVal(row[0]) in Bits(k) * Hashes(a);
    case Boolean(items) =>
      RowBits(k, row);
      LossyExecute(items, |items| - 1,
        (i: int, v: int) => Member(row, v), (i: int, v: int) => Bit(k, HashVal(v)));
  }

  /** A signature passes the inner test only if it can stand above a row that the leaf
      test of gist__int_ops would accept; the flag always passes. */
  lemma {:induction false} InnerTight(q: IntGist.Query, k: Key)
    requires IntGist.Proper(q) && Valid(k) && !q.Boolean?
    ensures InnerTest(q, k) <==> k.AllTrue? || exists row :: Covers(k, row) && IntGist.Accepts(q, row)
  {
    hide Bits, HashVal;
    if InnerTest(q, k) && k.Sign? {
      var row := RowBelow(q, k);
      assert Covers(k, row) && IntGist.Accepts(q, row);
    }
    forall row | Covers(k, row) && IntGist.Accepts(q, row) ensures InnerTest(q, k) {
      InnerPasses(q, k, row);
    }
  }

  lemma {:induction false} InnerPasses(q: IntGist.Query, k: Key, row: seq<int>)
    requires IntGist.Proper(q) && !q.Boolean? && Covers(k, row) && IntGist.Accepts(q, row)
    ensures InnerTest(q, k)
  {
    hide Bits, HashVal;
    match q
    case Overlap(a) =>
      var v := Pick(Elems(row) * Elems(a));
      assert HashVal(v) in Hashes(row) && HashVal(v) in Hashes(a);
      assert HashVal(v) in Bits(k) * Hashes(a);
    case Same(a) => HashesGrow(a, row);
    case Contains(a) => HashesGrow(a, row);
    case ContainedBy(a) => HashesGrow(row, a); assert HashVal(row[0]) in Bits(k) * Hashes(a);
  }

  lemma {:induction false} RowBelow(q: IntGist.Query, k: Key) returns (row: seq<int>)
    requires IntGist.Proper(q) && Valid(k) && !q.Boolean? && k.Sign? && InnerTest(q, k)
    ensures Covers(k, row) && IntGist.Accepts(q, row)
  {
    hide Bits, HashVal;
    if q.Same? || q.Contains? {
      row := q.a;
    } else {
      var j := Pick(Bits(k) * Hashes(q.a));
      var v :| v in q.a && HashVal(v) == j;
      row := [v];
      assert v in Elems(row) * Elems(q.a);
    }
  }

  /** A signature passes the leaf test only if it is the signature of such a row, one
      case apart: the empty signature passes for "contained in", which holds of no
      empty row. */
  lemma {:induction false} LeafTight(q: IntGist.Query, k: Key)
    requires IntGist.Proper(q) && Valid(k) && !q.Boolean?
    ensures LeafTest(q, k)
       <==> k.AllTrue? || (q.ContainedBy? && q.a != [] && Bits(k) == {})
            || exists row :: IsKey(k, row) && IntGist.Accepts(q, row)
  {
    hide Bits, HashVal;
    if LeafTest(q, k) && k.Sign? && !(q.ContainedBy? && Bits(k) == {}) {
      var row := RowOf(q, k);
      assert IsKey(k, row) && IntGist.Accepts(q, row);
    }
    forall row | IsKey(k, row) && IntGist.Accepts(q, row) ensures LeafTest(q, k) {
      LeafPasses(q, k, row);
    }
  }

  lemma {:induction false} LeafPasses(q: IntGist.Query, k: Key, row: seq<int>)
    requires IntGist.Proper(q) && !q.Boolean? && IsKey(k, row) && IntGist.Accepts(q, row)
    ensures LeafTest(q, k)
  {
    hide Bits, HashVal;
    InnerPasses(q, k, row);
    match q
    case Overlap(_) =>
    case Same(a) => HashesGrow(row, a); HashesGrow(a, row);
    case Contains(_) =>
    case ContainedBy(a) => HashesGrow(row, a);
  }

  /** A row with the given bits: the numbers of these themselves. */
  lemma {:induction false} RowWithBits(k: Key) returns (row: seq<int>)
    requires Valid(k)
    ensures Hashes(row) == Bits(k)
  {
    row := Listing(Bits(k));
    hide Listing;
    forall j | j in Bits(k) ensures HashVal(j) == j {
      HashSpread(j);
    }
    forall j | j in Bits(k) ensures j in Hashes(row) {
      assert j in Elems(row) && HashVal(j) == j;
    }
    forall j | j in Hashes(row) ensures j in Bits(k) {
      var v :| v in row && HashVal(v) == j;
      assert v in Elems(row);
    }
  }

  lemma {:induction false} HashesAppend(a: seq<int>, b: seq<int>)
    ensures Hashes(a + b) == Hashes(a) + Hashes(b)
  {
    hide HashVal;
    forall v | v in a || v in b ensures v in a + b {
    }
  }

  lemma {:induction false} RowOf(q: IntGist.Query, k: Key) returns (row: seq<int>)
    requires IntGist.Proper(q) && Valid(k) && !q.Boolean? && k.Sign? && LeafTest(q, k)
    requires q.ContainedBy? ==> Bits(k) != {}
    ensures IsKey(k, row) && IntGist.Accepts(q, row)
  {
    hide Bits, HashVal;
    if q.Same? {
      row := q.a;
    } else if q.ContainedBy? {
      row := Selected(q.a, Bits(k));
      var j := Pick(Bits(k));
      assert j in Hashes(row);
    } else {
      var rest := RowWithBits(k);
      var some := RowBelow(q, k);
      row := some + rest;
      HashesAppend(some, rest);
      AcceptsMore(q, some, rest);
    }
  }

  /** Overlap and containment hold of longer rows too. */
  lemma {:induction false} AcceptsMore(q: IntGist.Query, some: seq<int>, rest: seq<int>)
    requires q.Overlap? || q.Contains?
    requires IntGist.Proper(q) && IntGist.Accepts(q, some)
    ensures IntGist.Accepts(q, some + rest)
  {
    IntGist.ElemsAppend(some, rest);
    if q.Overlap? {
      var v := Pick(Elems(some) * Elems(q.a));
      assert v in Elems(some + rest) * Elems(q.a);
    }
  }

  /** The elements of a whose bits are among js. */
  lemma {:induction false} Selected(a: seq<int>, js: set<int>) returns (row: seq<int>)
    requires js <= Hashes(a)
    ensures Hashes(row) == js && Elems(row) <= Elems(a)
  {
    hide HashVal;
    var vs := set v | v in a && HashVal(v) in js;
    row := Listing(vs);
    hide Listing;
    forall j | j in js ensures j in Hashes(row) {
      var v :| v in a && HashVal(v) == j;
      assert v in vs && v in Elems(row);
    }
    forall j | j in Hashes(row) ensures j in js {
      var v :| v in row && HashVal(v) == j;
      assert v in Elems(row);
    }
  }

  /** For a Boolean query both tests are the query with every negation replaced by
      true, on the bits. */
  lemma {:induction false} BooleanTight(items: seq<Item>, e: Expr, k: Key)
    requires |items| == Size(e) && Linked(items, 0, e) && Valid(k)
    ensures var q := IntGist.Boolean(items);
      && IntGist.Proper(q)
      && (InnerTest(q, k) <==> k.AllTrue? || LossyEval(e, 0, (i: int, v: int) => Bit(k, HashVal(v))))
      && (LeafTest(q, k) <==> InnerTest(q, k))
  {
    hide Linked, Execute, LossyEval, HashVal;
    SizePositive(e);
    ExecuteIsLossyEval(items, 0, e, (i: int, v: int) => Bit(k, HashVal(v)));
  }

  lemma {:induction false} RowBits(k: Key, row: seq<int>)
    requires Covers(k, row)
    ensures forall v :: Member(row, v) ==> Bit(k, HashVal(v))
  {
    forall v | Member(row, v) ensures Bit(k, HashVal(v)) {
      assert HashVal(v) in Hashes(row);
    }
  }

  lemma {:induction false} AboveTransitive()
    ensures forall a, b, k :: Above(a, b) && Above(b, k) ==> Above(a, k)
  {
    hide Bits;
  }

  /** Support functions that keep the contracts of this module make a sound class. */
  lemma {:induction false} SupportedIsSound(c: GistInsert.OpClass<Key, seq<int>>)
    requires c.valid == Valid && c.above == Above && forall k, row :: c.isKey(k, row) ==> IsKey(k, row)
    requires GistInsert.Supported(c)
    ensures GistInsert.Sound(c)
  {
    hide Above, GistInsert.Supported, Bits;
    AboveTransitive();
  }

  /** Two keys joined: the flag, or the bits of both. */
  ghost function Join(a: Key, b: Key): Key {
    if a.AllTrue? || b.AllTrue? || !Valid(a) || !Valid(b) then AllTrue
    else Sign(seq(SIGLEN, i requires 0 <= i < SIGLEN => a.bytes[i] | b.bytes[i]))
  }

  lemma {:induction false} JoinBits(a: Key, b: Key)
    requires Valid(a) && Valid(b)
    ensures Valid(Join(a, b)) && Bits(Join(a, b)) == Bits(a) + Bits(b)
  {
    hide GetBit;
    if a.Sign? && b.Sign? {
      OrBytes(a.bytes, b.bytes, Join(a, b).bytes);
      UnionBits(a.bytes, Join(a, b).bytes, b.bytes);
    }
  }

  lemma {:induction false} JoinLaws()
    ensures GistInsert.Joining(Valid, Above, (a, b) => Some(Join(a, b)))
  {
    hide Bits, Join;
    forall a, b | Valid(a) && Valid(b) ensures Valid(Join(a, b)) && Above(Join(a, b), a) && Above(Join(a, b), b) {
      JoinBits(a, b);
    }
    AboveTransitive();
  }

  /** There is a sound class, for any page size, and every run of it returns. */
  lemma {:induction false} ClassExists(space: GistInsert.Space<Key>, ops: seq<GistInsert.Insertion<Key, seq<int>>>)
    requires GistInsert.Roomy(space)
    requires forall i :: 0 <= i < |ops| ==> IsKey(ops[i].key, ops[i].row)
    ensures var c := GistInsert.Plain(Valid, IsKey, Above, (a, b) => Some(Join(a, b)), space);
      GistInsert.Supported(c) && GistInsert.Sound(c) && GistInsert.After(c, ops).Some?
  {
    hide Above, Bits, Join, GistInsert.Supported, GistInsert.Total;
    JoinLaws();
    var join := (a, b) => Some(Join(a, b));
    var c := GistInsert.Plain(Valid, IsKey, Above, join, space);
    GistInsert.PlainSupported(Valid, IsKey, Above, join, space);
    GistInsert.PlainTotal(Valid, IsKey, Above, join, space, |ops|);
    SupportedIsSound(c);
    GistInsert.RunNarrow(c, ops, |ops|);
    GistInsert.TotalRuns(c, ops, |ops|);
  }

  lemma {:induction false} KeysLawful()
    ensures Lawful(IsKey, Above, Covers)
  {
    hide Bits;
  }

  /** After any run of insertions, the rechecked scan of the index returns just
      the rows of a sequential scan; equality with the empty array excepted. */
  lemma {:induction false} IndexAgrees(
    c: GistInsert.OpClass<Key, seq<int>>, ops: seq<GistInsert.Insertion<Key, seq<int>>>, q: IntGist.Query)
    requires GistInsert.Sound(c) && GistInsert.Proper(c, ops) && GistInsert.After(c, ops).Some?
    requires forall k, row :: c.isKey(k, row) ==> IsKey(k, row)
    requires forall k, d :: c.above(k, d) ==> Above(k, d)
    requires IntGist.Proper(q) && (q.Same? ==> q.a != [])
    ensures var found := Search(GistInsert.After(c, ops).value, k => LeafTest(q, k), k => InnerTest(q, k));
      var matches := row => IntGist.Matches(q, row);
      multiset(Filter(matches, found)) == multiset(Filter(matches, GistInsert.Inserted(ops)))
  {
    hide LeafTest, InnerTest, IntGist.Matches, IsKey, Above, Covers, GistInsert.Sound;
    KeysLawful();
    forall k, row | Covers(k, row) && IntGist.Matches(q, row)
      ensures InnerTest(q, k)
      ensures IsKey(k, row) ==> LeafTest(q, k)
    {
      TestsSound(q, k, row);
    }
    GistInsert.RunNeverPruned(
      c, ops, Covers, row => IntGist.Matches(q, row), k => LeafTest(q, k), k => InnerTest(q, k));
  }

  /** A leaf key never passes for the empty array, so equality with it agrees
      with the operator exactly when no row is empty. */
  lemma {:induction false} EmptyEquality(ts: seq<Tree<Key, seq<int>>>)
    requires WellKeyed(ts, IsKey, Above)
    ensures var q := IntGist.Same([]);
      var found := Search(ts, k => LeafTest(q, k), k => InnerTest(q, k));
      var matches := row => IntGist.Matches(q, row);
      Filter(matches, found) == [] && (Filter(matches, Rows(ts)) == [] <==> [] !in Rows(ts))
  {
    var q := IntGist.Same([]);
    var matches := row => IntGist.Matches(q, row);
    assert forall row :: matches(row) <==> row == [];
    NoEmptyFound(ts, k => LeafTest(q, k), k => InnerTest(q, k));
    NoneLeft(matches, Search(ts, k => LeafTest(q, k), k => InnerTest(q, k)));
    if [] in Rows(ts) {
      StillThere(matches, Rows(ts), []);
    } else {
      NoneLeft(matches, Rows(ts));
    }
  }

  lemma {:induction false} NoEmptyFound(ts: seq<Tree<Key, seq<int>>>, leaf: Key -> bool, inner: Key -> bool)
    requires WellKeyed(ts, IsKey, Above) && forall k :: leaf(k) ==> k.AllTrue?
    ensures [] !in Search(ts, leaf, inner)
    decreases ts
  {
    if ts != [] {
      NoEmptyFound(ts[1..], leaf, inner);
      match ts[0]
      case Leaf(k, row) =>
        if leaf(k) {
          assert 0 in Bits(k);
          assert Hashes([]) == {};
        }
      case Node(_, kids) => NoEmptyFound(kids, leaf, inner);
    }
  }
}
