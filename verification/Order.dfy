/** Three-way comparison in the manner of strncmp, memcmp and qsort callbacks:
    the sign of the result is the verdict.  Lexicographic order is defined once
    and used for bytes, labels, paths and packed values. */
module Order {

  /** cmp orders all values: zero only on equals, and transitive. */
  ghost predicate TotalOrder<T(!new)>(cmp: (T, T) -> int) {
    (forall x, y :: cmp(x, y) == 0 <==> x == y)
    && (forall x, y :: cmp(x, y) < 0 <==> cmp(y, x) > 0)
    && (forall x, y, z :: cmp(x, y) < 0 && cmp(y, z) < 0 ==> cmp(x, z) < 0)
  }

  /** The first difference decides, and a proper prefix comes first. */
  function Lex<T>(a: seq<T>, b: seq<T>, cmp: (T, T) -> int): int {
    if a == [] || b == [] then |a| - |b|
    else if cmp(a[0], b[0]) != 0 then cmp(a[0], b[0])
    else Lex(a[1..], b[1..], cmp)
  }

  lemma {:induction false} LexZero<T(!new)>(a: seq<T>, b: seq<T>, cmp: (T, T) -> int)
    requires TotalOrder(cmp)
    ensures Lex(a, b, cmp) == 0 <==> a == b
  {
    if a != [] && b != [] {
      LexZero(a[1..], b[1..], cmp);
      assert a == [a[0]] + a[1..] && b == [b[0]] + b[1..];
    }
  }

  lemma {:induction false} LexFlip<T(!new)>(a: seq<T>, b: seq<T>, cmp: (T, T) -> int)
    requires TotalOrder(cmp)
    ensures Lex(a, b, cmp) < 0 <==> Lex(b, a, cmp) > 0
  {
    if a != [] && b != [] {
      LexFlip(a[1..], b[1..], cmp);
    }
  }

  lemma {:induction false} LexTrans<T(!new)>(a: seq<T>, b: seq<T>, c: seq<T>, cmp: (T, T) -> int)
    requires TotalOrder(cmp) && Lex(a, b, cmp) < 0 && Lex(b, c, cmp) < 0
    ensures Lex(a, c, cmp) < 0
  {
    if a != [] && b != [] && c != [] {
      assert cmp(a[0], b[0]) <= 0 && cmp(b[0], c[0]) <= 0;
      if cmp(a[0], b[0]) == 0 && cmp(b[0], c[0]) == 0 {
        LexTrans(a[1..], b[1..], c[1..], cmp);
      }
    }
  }

  /** The first difference is at i, and a has the smaller element there. */
  ghost predicate LessAt<T>(a: seq<T>, b: seq<T>, cmp: (T, T) -> int, i: int) {
    0 <= i < |a| && i < |b| && a[..i] == b[..i] && cmp(a[i], b[i]) < 0
  }

  lemma {:induction false} LessBehind<T>(a: seq<T>, b: seq<T>, cmp: (T, T) -> int, i: int)
    requires a != [] && b != [] && a[0] == b[0] && i > 0
    ensures LessAt(a, b, cmp, i) <==> LessAt(a[1..], b[1..], cmp, i - 1)
  {
    if i < |a| && i < |b| {
      assert a[..i] == [a[0]] + a[1..][..i - 1] && b[..i] == [b[0]] + b[1..][..i - 1];
      assert a[1..][..i - 1] == a[..i][1..] && b[1..][..i - 1] == b[..i][1..];
    }
  }

  lemma {:induction false} PrefixBehind<T>(a: seq<T>, b: seq<T>)
    requires a != [] && b != []
    ensures a < b <==> a[0] == b[0] && a[1..] < b[1..]
  {
    assert a == [a[0]] + a[1..] && b == [b[0]] + b[1..];
  }

  lemma {:induction false} LessFirst<T>(a: seq<T>, b: seq<T>, cmp: (T, T) -> int, i: int)
    requires a != [] && b != [] && a[0] != b[0]
    ensures LessAt(a, b, cmp, i) <==> i == 0 && cmp(a[0], b[0]) < 0
  {
    if 0 < i < |a| && i < |b| {
      assert a[..i][0] != b[..i][0];
    }
  }

  /** What the sign of the comparison says: a is a proper prefix of b, or smaller
      at the first difference. */
  lemma {:induction false} LexBelow<T(!new)>(a: seq<T>, b: seq<T>, cmp: (T, T) -> int)
    requires TotalOrder(cmp)
    ensures Lex(a, b, cmp) < 0 <==> a < b || exists i :: LessAt(a, b, cmp, i)
  {
    if a == [] || b == [] {
      assert !exists i :: LessAt(a, b, cmp, i);
    } else if a[0] == b[0] {
      hide LessAt;
      LexBelow(a[1..], b[1..], cmp);
      PrefixBehind(a, b);
      forall i ensures i > 0 ==> (LessAt(a, b, cmp, i) <==> LessAt(a[1..], b[1..], cmp, i - 1)) {
        if i > 0 { LessBehind(a, b, cmp, i); }
      }
      NotAtStart(a, b, cmp);
      if j :| LessAt(a[1..], b[1..], cmp, j) {
        NotBefore(a[1..], b[1..], cmp, j);
        assert LessAt(a, b, cmp, j + 1);
      }
    } else {
      hide LessAt;
      PrefixBehind(a, b);
      forall i ensures LessAt(a, b, cmp, i) <==> i == 0 && cmp(a[0], b[0]) < 0 {
        LessFirst(a, b, cmp, i);
      }
      assert LessAt(a, b, cmp, 0) <==> cmp(a[0], b[0]) < 0;
    }
  }

  lemma {:induction false} NotAtStart<T(!new)>(a: seq<T>, b: seq<T>, cmp: (T, T) -> int)
    requires TotalOrder(cmp) && a != [] && b != [] && a[0] == b[0]
    ensures forall i :: LessAt(a, b, cmp, i) ==> i > 0
  {
  }

  lemma {:induction false} NotBefore<T>(a: seq<T>, b: seq<T>, cmp: (T, T) -> int, i: int)
    requires LessAt(a, b, cmp, i)
    ensures i >= 0
  {
  }

  // ------------------------------------------------------------- strings

  /** Byte order, said without a comparison function: a is a proper prefix of b, or
      has the lower byte at the first difference. */
  ghost predicate TextBefore(a: string, b: string) {
    a < b || exists i :: 0 <= i < |a| && i < |b| && a[..i] == b[..i] && a[i] < b[i]
  }

  function CharCmp(x: char, y: char): int {
    x as int - y as int
  }

  /** strncmp over the common length, then the lengths. */
  function StrCmp(a: string, b: string): int {
    Lex(a, b, CharCmp)
  }

  /** Lexicographic order inherits every law of the order on elements. */
  lemma {:induction false} StrCmpTotal()
    ensures TotalOrder(StrCmp)
  {
    forall a, b ensures StrCmp(a, b) == 0 <==> a == b { LexZero(a, b, CharCmp); }
    forall a, b ensures StrCmp(a, b) < 0 <==> StrCmp(b, a) > 0 { LexFlip(a, b, CharCmp); }
    forall a, b, c | StrCmp(a, b) < 0 && StrCmp(b, c) < 0 ensures StrCmp(a, c) < 0 { LexTrans(a, b, c, CharCmp); }
  }

  lemma {:induction false} CharCmpTotal()
    ensures TotalOrder(CharCmp)
  {
  }

  lemma {:induction false} StrBelow(a: string, b: string)
    ensures StrCmp(a, b) < 0 <==> TextBefore(a, b)
    ensures StrCmp(a, b) > 0 <==> TextBefore(b, a)
  {
    hide Lex;
    CharCmpTotal();
    CharsBelow(a, b);
    CharsBelow(b, a);
    LexFlip(b, a, CharCmp);
  }

  lemma {:induction false} CharsBelow(a: string, b: string)
    ensures Lex(a, b, CharCmp) < 0 <==> TextBefore(a, b)
  {
    hide Lex;
    CharCmpTotal();
    LexBelow(a, b, CharCmp);
    if i :| 0 <= i < |a| && i < |b| && a[..i] == b[..i] && a[i] < b[i] {
      assert LessAt(a, b, CharCmp, i);
    }
  }

  lemma {:induction false} SameText(a: string, b: string)
    ensures StrCmp(a, b) == 0 <==> a == b
  {
    StrCmpTotal();
  }

  /** The order of hstore keys: shorter keys first, then byte by byte. */
  function KeyCmp(a: string, b: string): int {
    if |a| == |b| then StrCmp(a, b) else if |a| > |b| then 1 else -1
  }

  lemma {:induction false} KeyCmpTotal()
    ensures TotalOrder(KeyCmp)
  {
    StrCmpTotal();
  }

  lemma {:induction false} KeyBelow(a: string, b: string)
    ensures KeyCmp(a, b) < 0 <==> |a| < |b| || (|a| == |b| && TextBefore(a, b))
  {
    hide TextBefore, StrCmp;
    StrBelow(a, b);
  }

  function IntCmp(x: int, y: int): int {
    if x < y then -1 else if x > y then 1 else 0
  }
}
