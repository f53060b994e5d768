/** Label paths.  They are ordered level by level, labels byte by byte, and a
    path comes before its descendants.  `ltree_compare` returns the sign of that
    order, scaled by a factor that does not always fit an int. */
module Ltree {
  import opened Common
  import opened Int32
  import opened Order

  type Path = seq<string>

  const MAX_LEVELS := 65535
  /** A label has at most 255 characters of at most four bytes each. */
  const MAX_LABEL := 4 * 255

  /** Labels are bytes, and the level count is a uint16. */
  ghost predicate IsPath(p: Path) {
    |p| <= MAX_LEVELS && forall i :: 0 <= i < |p| ==> IsLabel(p[i])
  }

  ghost predicate IsLabel(s: string) {
    |s| <= MAX_LABEL && forall i :: 0 <= i < |s| ==> s[i] as int < 256
  }

  function PathCmp(a: Path, b: Path): int {
    Lex(a, b, StrCmp)
  }

  lemma {:induction false} PathCmpTotal()
    ensures TotalOrder(PathCmp)
  {
    StrCmpTotal();
    forall a, b ensures PathCmp(a, b) == 0 <==> a == b { LexZero(a, b, StrCmp); }
    forall a, b ensures PathCmp(a, b) < 0 <==> PathCmp(b, a) > 0 { LexFlip(a, b, StrCmp); }
    forall a, b, c | PathCmp(a, b) < 0 && PathCmp(b, c) < 0 ensures PathCmp(a, c) < 0 { LexTrans(a, b, c, StrCmp); }
  }

  /** An ancestor comes first; otherwise the first level that differs decides, by the
      bytes of its label. */
  lemma {:induction false} PathBelow(a: Path, b: Path)
    ensures PathCmp(a, b) < 0
       <==> a < b || exists i :: 0 <= i < |a| && i < |b| && a[..i] == b[..i] && TextBefore(a[i], b[i])
  {
    hide TextBefore, StrCmp;
    StrCmpTotal();
    LexBelow(a, b, StrCmp);
    if i :| 0 <= i < |a| && i < |b| && a[..i] == b[..i] && TextBefore(a[i], b[i]) {
      StrBelow(a[i], b[i]);
      assert LessAt(a, b, StrCmp, i);
    }
    if i :| LessAt(a, b, StrCmp, i) {
      StrBelow(a[i], b[i]);
    }
  }

  function Le(a: Path, b: Path): bool {
    PathCmp(a, b) <= 0
  }

  lemma {:induction false} LeTrans(a: Path, b: Path, c: Path)
    requires Le(a, b) && Le(b, c)
    ensures Le(a, c)
  {
    PathCmpTotal();
  }

  // -------------------------------------------------------- ltree_compare

  lemma {:induction false} LabelCmpSmall(a: string, b: string)
    requires |a| <= MAX_LABEL && |b| <= MAX_LABEL
    requires forall i :: 0 <= i < |a| ==> a[i] as int < 256
    requires forall i :: 0 <= i < |b| ==> b[i] as int < 256
    ensures -MAX_LABEL <= StrCmp(a, b) <= MAX_LABEL
  {
    if a != [] && b != [] && a[0] == b[0] {
      LabelCmpSmall(a[1..], b[1..]);
    }
  }

  predicate SameSign(x: int, y: int) {
    (x < 0 <==> y < 0) && (x > 0 <==> y > 0)
  }

  /** How far a runs on behind b when b is a proper prefix of it. */
  ghost function Excess(a: Path, b: Path): int {
    if b < a then |a| - |b| else 0
  }

  /** The products of `ltree_compare` in 32 bits. */
  function Scaled(x: int, n: int): int {
    Wrap(Wrap(x * 10) * n)
  }

  lemma {:induction false} ScaledFits(x: int, n: int)
    requires -MAX_LABEL <= x <= MAX_LABEL && 1 <= n <= 65536
    ensures SameSign(Scaled(x, n), x)
  {
    Product(x * 10, n);
  }

  lemma {:induction false} Product(p: int, n: int)
    requires -10200 <= p <= 10200 && 1 <= n <= 65536
    ensures IsInt32(p * n) && SameSign(p * n, p)
  {
    if p > 0 {
      Times(1, p, n);
      Times(p, 10200, n);
    } else if p < 0 {
      Times(p, -1, n);
      Times(-10200, p, n);
    }
  }

  lemma {:induction false} Times(x: int, y: int, n: int)
    requires x <= y && n >= 0
    ensures x * n <= y * n
  {
  }

  /** The product still has the right sign when a runs on behind b. */
  ghost predicate Faithful(a: Path, b: Path) {
    Excess(a, b) > 0 ==> Scaled(Excess(a, b), Excess(a, b) + 1) > 0
  }

  /** The value of `ltree_compare`: the difference at the first level that differs,
      or of the level counts, scaled by the levels of a from there on. */
  function Compared(a: Path, b: Path): int {
    if a == [] || b == [] then Scaled(|a| - |b|, |a| + 1)
    else if a[0] != b[0] then Scaled(StrCmp(a[0], b[0]), |a| + 1)
    else Compared(a[1..], b[1..])
  }

  /** `ltree_compare` has the sign of the path order, unless a is a descendant of b
      so many levels below that the product wraps around; it is zero only of equal
      paths. */
  method Compare(a: Path, b: Path) returns (res: int)
    requires IsPath(a) && IsPath(b)
    ensures res == Compared(a, b)
    ensures SameSign(res, PathCmp(a, b)) <==> Faithful(a, b)
    ensures res == 0 <==> a == b
  {
    hide IsPath, PathCmp, Faithful, StrCmp, Scaled;
    ComparedSign(a, b);
    StrCmpTotal();
    var an, bn, i := |a|, |b|, 0;
    while an > 0 && bn > 0
      invariant 0 <= i <= |a| && i <= |b| && an == |a| - i && bn == |b| - i
      invariant Compared(a[i..], b[i..]) == Compared(a, b)
    {
      res := StrCmp(a[i], b[i]);
      if res != 0 {
        return Scaled(res, an + 1);
      }
      assert a[i..][1..] == a[i + 1..] && b[i..][1..] == b[i + 1..];
      an, bn, i := an - 1, bn - 1, i + 1;
    }
    return Scaled(|a| - |b|, an + 1);
  }

  lemma {:induction false} ComparedSign(a: Path, b: Path)
    requires IsPath(a) && IsPath(b)
    ensures SameSign(Compared(a, b), PathCmp(a, b)) <==> Faithful(a, b)
    ensures !Faithful(a, b) ==> Compared(a, b) < 0 < PathCmp(a, b)
    ensures Compared(a, b) == 0 <==> a == b
  {
    hide StrCmp, Scaled;
    StrCmpTotal();
    if a == [] {
      NoExcess(|b|);
    } else if b == [] {
      ExcessNotZero(|a|);
    } else if a[0] != b[0] {
      assert IsLabel(a[0]) && IsLabel(b[0]);
      LabelCmpSmall(a[0], b[0]);
      ScaledFits(StrCmp(a[0], b[0]), |a| + 1);
    } else {
      ComparedSign(a[1..], b[1..]);
      SameExcess(a, b);
    }
  }

  lemma {:induction false} SameExcess(a: Path, b: Path)
    requires a != [] && b != [] && a[0] == b[0]
    ensures Excess(a, b) == Excess(a[1..], b[1..])
  {
    assert a == [a[0]] + a[1..] && b == [b[0]] + b[1..];
  }

  lemma {:induction false} NoExcess(n: int)
    requires 0 <= n <= MAX_LEVELS
    ensures SameSign(Scaled(-n, 1), -n)
  {
  }

  /** The product can wrap around, but never to zero. */
  lemma {:induction false} ExcessNotZero(d: int)
    requires 0 < d <= MAX_LEVELS
    ensures Scaled(d, d + 1) != 0
  {
    hide Wrap;
    Pronic(d);
    TenTimes(d * (d + 1));
    Regroup(d);
  }

  lemma {:induction false} Regroup(d: int)
    ensures d * 10 * (d + 1) == 10 * (d * (d + 1))
  {
  }

  lemma {:induction false} TenTimes(y: int)
    requires 0 < y <= 4294901760 && y != 0x8000_0000
    ensures Wrap(10 * y) != 0
  {
    var m := 10 * y / 0x1_0000_0000;
    if m == 0 {} else if m == 1 {} else if m == 2 {} else if m == 3 {} else if m == 4 {}
    else if m == 5 {} else if m == 6 {} else if m == 7 {} else if m == 8 {} else {}
  }

  /** No product of two neighbours is 2^31. */
  lemma {:induction false} Pronic(d: int)
    requires 0 < d <= MAX_LEVELS
    ensures 0 < d * (d + 1) <= 4294901760 && d * (d + 1) != 0x8000_0000
  {
    Times(1, d, d + 1);
    Times(d, MAX_LEVELS, d + 1);
    if d <= 46340 {
      Times(d, 46340, d + 1);
    } else {
      Times(46341, d, d + 1);
    }
  }

  /** The deepest trees on which the comparison can be trusted. */
  const MAX_DEPTH := 14653

  ghost predicate Shallow(p: Path) {
    IsPath(p) && |p| <= MAX_DEPTH
  }

  /** All comparisons of paths with at most depth levels have the right sign
      exactly when depth is at most 14653. */
  lemma {:induction false} DepthLimit(depth: nat)
    requires depth <= MAX_LEVELS
    ensures (forall a, b :: IsPath(a) && IsPath(b) && |a| <= depth && |b| <= depth ==> Faithful(a, b))
            <==> depth <= MAX_DEPTH
  {
    if depth <= MAX_DEPTH {
      forall a, b | IsPath(a) && IsPath(b) && |a| <= depth && |b| <= depth ensures Faithful(a, b) {
        ExcessFits(Excess(a, b));
      }
    } else {
      var a := seq(MAX_DEPTH + 1, _ => "");
      assert [] < a && Excess(a, []) == MAX_DEPTH + 1;
      assert Scaled(14654, 14655) == 2147543700 - 0x1_0000_0000;
      assert IsPath(a) && IsPath([]) && !Faithful(a, []);
    }
  }

  lemma {:induction false} ExcessFits(d: int)
    requires 0 <= d <= MAX_DEPTH
    ensures d > 0 ==> Scaled(d, d + 1) > 0
  {
    var p := d * 10;
    Times(p, 146530, d + 1);
    if d > 0 {
      Times(1, p, d + 1);
    }
  }

  lemma {:induction false} ShallowFaithful(a: Path, b: Path)
    requires Shallow(a) && Shallow(b)
    ensures Faithful(a, b)
  {
    ExcessFits(Excess(a, b));
  }

  // ---------------------------------------------------------- truncation

  function Trunc(p: Path, n: nat): Path {
    if n <= |p| then p[..n] else p
  }

  /** Cutting both paths to the same number of levels keeps their order. */
  lemma {:induction false} TruncMonotone(a: Path, b: Path, n: nat)
    requires Le(a, b)
    ensures Le(Trunc(a, n), Trunc(b, n))
  {
    StrCmpTotal();
    if a != [] && b != [] && n > 0 && a[0] == b[0] {
      TruncMonotone(a[1..], b[1..], n - 1);
      assert Trunc(a, n)[1..] == Trunc(a[1..], n - 1);
      assert Trunc(b, n)[1..] == Trunc(b[1..], n - 1);
    }
  }

  lemma {:induction false} PrefixBelow(p: Path, c: Path)
    requires p <= c
    ensures Le(p, c)
  {
    StrCmpTotal();
    if p != [] {
      PrefixBelow(p[1..], c[1..]);
    }
  }

  // ------------------------------------------------ ancestors, descendants

  /** `inner_isparent`: p is c or an ancestor of it. */
  method InnerIsParent(c: Path, p: Path) returns (r: bool)
    ensures r <==> p <= c
  {
    if |p| > |c| {
      return false;
    }
    var i := 0;
    while i < |p|
      invariant 0 <= i <= |p| && p[..i] == c[..i]
    {
      if |c[i]| != |p[i]| || StrCmp(c[i], p[i]) != 0 {
        StrCmpTotal();
        assert c[i] != p[i];
        return false;
      }
      StrCmpTotal();
      assert p[..i + 1] == p[..i] + [p[i]] && c[..i + 1] == c[..i] + [c[i]];
      i := i + 1;
    }
    assert p[..i] == p;
    return true;
  }

  /** p is an ancestor, not merely a prefix, of the first n paths. */
  ghost predicate CommonAncestor(p: Path, paths: seq<Path>, n: int) {
    forall k :: 0 <= k < n && k < |paths| ==> p < paths[k]
  }

  ghost predicate IsLca(paths: seq<Path>, n: int, num: int) {
    0 < n <= |paths| && 0 <= num < |paths[0]| && CommonAncestor(paths[0][..num], paths, n)
    && forall p :: CommonAncestor(p, paths, n) ==> |p| <= num
  }

  /** `lca_inner`: the longest common ancestor; there is none when some path is
      empty. */
  method LcaInner(a: seq<Path>) returns (res: Option<Path>)
    requires a != []
    ensures res.None? <==> [] in a
    ensures res.Some? ==> CommonAncestor(res.value, a, |a|)
    ensures res.Some? ==> forall p :: CommonAncestor(p, a, |a|) ==> p <= res.value
  {
    hide CommonAncestor, IsLca;
    if |a[0]| == 0 {
      return None;
    }
    var num := |a[0]| - 1;
    LcaFirst(a);
    var ptr := 1;
    while ptr < |a|
      invariant 1 <= ptr <= |a| && 0 <= num < |a[0]| && IsLca(a, ptr, num)
      invariant forall k :: 0 <= k < ptr ==> a[k] != []
    {
      if |a[ptr]| == 0 {
        return None;
      }
      ghost var was := num;
      if |a[ptr]| == 1 {
        num := 0;
      } else {
        num := CommonLevels(a[0], a[ptr], num);
      }
      LcaStep(a, ptr, was, num);
      ptr := ptr + 1;
    }
    LcaLast(a, num);
    return Some(a[0][..num]);
  }

  lemma {:induction false} LcaFirst(a: seq<Path>)
    requires a != [] && a[0] != []
    ensures IsLca(a, 1, |a[0]| - 1)
  {
  }

  lemma {:induction false} LcaLast(a: seq<Path>, num: int)
    requires IsLca(a, |a|, num)
    ensures CommonAncestor(a[0][..num], a, |a|)
    ensures forall p :: CommonAncestor(p, a, |a|) ==> p <= a[0][..num]
  {
    forall p | CommonAncestor(p, a, |a|) ensures p <= a[0][..num] {
      assert p < a[0];
    }
  }

  /** The common levels of two paths, up to a limit and short of all of b. */
  method CommonLevels(a: Path, b: Path, limit: nat) returns (num: nat)
    requires limit <= |a| && b != []
    ensures num <= limit && num < |b| && a[..num] == b[..num]
    ensures num < limit && num + 1 < |b| ==> a[num] != b[num]
  {
    num := 0;
    var i := 0;
    while i < limit && i < |b| - 1
      invariant num == i <= limit && i < |b| && a[..i] == b[..i]
    {
      StrCmpTotal();
      if |a[i]| == |b[i]| && StrCmp(a[i], b[i]) == 0 {
        assert a[..i + 1] == a[..i] + [a[i]] && b[..i + 1] == b[..i] + [b[i]];
        num := i + 1;
      } else {
        break;
      }
      i := i + 1;
    }
  }

  lemma {:induction false} LcaStep(a: seq<Path>, ptr: nat, was: nat, num: nat)
    requires ptr < |a| && IsLca(a, ptr, was)
    requires num <= was && num < |a[ptr]| && a[0][..num] == a[ptr][..num]
    requires num < was && num + 1 < |a[ptr]| ==> a[0][num] != a[ptr][num]
    ensures IsLca(a, ptr + 1, num)
  {
    hide CommonAncestor;
    CutAncestor(a, ptr, was, num);
    OneMore(a[0][..num], a, ptr);
    forall p | CommonAncestor(p, a, ptr + 1) ensures |p| <= num {
      OneMore(p, a, ptr);
      assert p < a[ptr];
      FirstToo(p, a, ptr);
    }
  }

  lemma {:induction false} OneMore(p: Path, a: seq<Path>, n: nat)
    requires n < |a|
    ensures CommonAncestor(p, a, n + 1) <==> CommonAncestor(p, a, n) && p < a[n]
  {
  }

  lemma {:induction false} FirstToo(p: Path, a: seq<Path>, n: nat)
    requires 0 < n <= |a| && CommonAncestor(p, a, n)
    ensures p < a[0]
  {
  }

  lemma {:induction false} CutAncestor(a: seq<Path>, n: nat, was: nat, num: nat)
    requires a != [] && num <= was < |a[0]| && CommonAncestor(a[0][..was], a, n)
    ensures CommonAncestor(a[0][..num], a, n)
  {
    forall k | 0 <= k < n && k < |a| ensures a[0][..num] < a[k] {
      assert a[0][..was] < a[k];
      assert a[0][..num] == a[0][..was][..num];
    }
  }
}
