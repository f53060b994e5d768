/** What the errors of the hstore parser mean: a syntax error is reported at the
    first character that no accepted text can have there, and an unexpected end
    where the text can still be completed. */
module HstoreErrors {
  import opened HstorePairs
  import opened HstoreText

  // ---------------------------------------------------------------- words

  /** A word depends on no more than the character behind it. */
  lemma {:induction false} ValLocal(
    s: string, t: string, n: nat, p: nat, st: ValState, word: string, escaped: bool, ignoreeq: bool)
    requires p <= n <= |s| && n <= |t| && s[..n] == t[..n]
    ensures var r := ScanVal(s, p, st, word, escaped, ignoreeq);
      && (r.Got? && r.ptr + 1 < n ==> ScanVal(t, p, st, word, escaped, ignoreeq) == r)
      && (r.Bad? && r.e.Syntax? && r.e.pos < n ==> ScanVal(t, p, st, word, escaped, ignoreeq) == r)
    decreases n - p
  {
    if p < n {
      assert s[p] == s[..n][p] && t[p] == t[..n][p];
      var m := p + 1;
      forall st', w, e {:trigger ScanVal(s, m, st', w, e, ignoreeq)}
        ensures var r := ScanVal(s, m, st', w, e, ignoreeq);
          && (r.Got? && r.ptr + 1 < n ==> ScanVal(t, m, st', w, e, ignoreeq) == r)
          && (r.Bad? && r.e.Syntax? && r.e.pos < n ==> ScanVal(t, m, st', w, e, ignoreeq) == r)
      {
        ValLocal(s, t, n, m, st', w, e, ignoreeq);
      }
    } else {
      ValPositions(s, p, st, word, escaped, ignoreeq);
    }
  }

  /** A syntax error is at a character of the text. */
  lemma {:induction false} ValPositions(
    s: string, p: nat, st: ValState, word: string, escaped: bool, ignoreeq: bool)
    requires p <= |s|
    ensures var r := ScanVal(s, p, st, word, escaped, ignoreeq);
      && (r.Bad? && r.e.Syntax? ==> p <= r.e.pos < |s| && s[r.e.pos] == r.e.c)
      && (r.Got? ==> p <= r.ptr + 1)
    decreases |s| - p
  {
    if p < |s| {
      var m := p + 1;
      forall st', w, e {:trigger ScanVal(s, m, st', w, e, ignoreeq)}
        ensures var r := ScanVal(s, m, st', w, e, ignoreeq);
          r.Bad? && r.e.Syntax? ==> m <= r.e.pos < |s| && s[r.e.pos] == r.e.c
      {
        ValPositions(s, m, st', w, e, ignoreeq);
      }
    }
  }

  /** A text cut behind a word, or before a syntax error, still has the word, or
      none. */
  lemma {:induction false} ValCut(
    s: string, n: nat, p: nat, st: ValState, word: string, escaped: bool, ignoreeq: bool)
    requires p <= n <= |s|
    ensures var r := ScanVal(s, p, st, word, escaped, ignoreeq);
      && (r.Got? && r.ptr + 1 <= n ==> ScanVal(s[..n], p, st, word, escaped, ignoreeq) == r)
      && (r.Bad? && r.e.Syntax? && r.e.pos == n ==> ScanVal(s[..n], p, st, word, escaped, ignoreeq).End?)
    decreases n - p
  {
    if p < n {
      var t, m := s[..n], p + 1;
      assert t[p] == s[p];
      forall st', w, e {:trigger ScanVal(s, m, st', w, e, ignoreeq)}
        ensures var r := ScanVal(s, m, st', w, e, ignoreeq);
          && (r.Got? && r.ptr + 1 <= n ==> ScanVal(t, m, st', w, e, ignoreeq) == r)
          && (r.Bad? && r.e.Syntax? && r.e.pos == n ==> ScanVal(t, m, st', w, e, ignoreeq).End?)
      {
        ValCut(s, n, m, st', w, e, ignoreeq);
      }
    } else {
      ValCutEnd(s, n, st, word, escaped, ignoreeq);
    }
  }

  lemma {:induction false} ValCutEnd(
    s: string, n: nat, st: ValState, word: string, escaped: bool, ignoreeq: bool)
    requires n <= |s|
    ensures var r := ScanVal(s, n, st, word, escaped, ignoreeq);
      && (r.Got? && r.ptr + 1 <= n ==> ScanVal(s[..n], n, st, word, escaped, ignoreeq) == r)
      && (r.Bad? && r.e.Syntax? && r.e.pos == n ==> ScanVal(s[..n], n, st, word, escaped, ignoreeq).End?)
  {
    if n < |s| {
      var m := n + 1;
      forall st', w, e {:trigger ScanVal(s, m, st', w, e, ignoreeq)}
        ensures var r := ScanVal(s, m, st', w, e, ignoreeq);
          && (r.Got? ==> m <= r.ptr + 1) && (r.Bad? && r.e.Syntax? ==> m <= r.e.pos)
      {
        ValPositions(s, m, st', w, e, ignoreeq);
      }
    }
  }

  // -------------------------------------------------------- syntax errors

  ghost predicate SyntaxAt(r: Parse, q: int) {
    r.Failed? && r.e.Syntax? && r.e.pos == q
  }

  /** A syntax error names a character of the text, and stays whatever follows it. */
  lemma {:induction false} SyntaxStays(
    s: string, t: string, p: nat, st: PairState, pairs: seq<Pairs>, key: string, q: int)
    requires p <= |s| && SyntaxAt(ScanPairs(s, p, st, pairs, key), q)
    ensures p <= q < |s| && s[q] == ScanPairs(s, p, st, pairs, key).e.c
    ensures q < |t| && t[..q + 1] == s[..q + 1] ==> ScanPairs(t, p, st, pairs, key) == ScanPairs(s, p, st, pairs, key)
    decreases |s| - p
  {
    if st == WKey || st == WVal {
      var v := ScanVal(s, p, WaitVal, "", false, st == WVal);
      ValPositions(s, p, WaitVal, "", false, st == WVal);
      hide ScanVal;
      if v.Got? {
        var ps := if st == WKey then pairs else pairs + [Pairs(key, v.word, SpellsNull(v.word) && !v.escaped, true)];
        SyntaxStays(s, t, v.ptr + 1, if st == WKey then WEq else WDel, ps, if st == WKey then v.word else key, q);
      }
      if q < |t| && t[..q + 1] == s[..q + 1] {
        ValLocal(s, t, q + 1, p, WaitVal, "", false, st == WVal);
      }
    } else {
      hide ScanVal;
      if p < |s| {
        StaysStep(s, t, p, st, pairs, key, q);
      }
    }
  }

  lemma {:induction false} StaysStep(
    s: string, t: string, p: nat, st: PairState, pairs: seq<Pairs>, key: string, q: int)
    requires p < |s| && st != WKey && st != WVal && SyntaxAt(ScanPairs(s, p, st, pairs, key), q)
    ensures p <= q < |s| && s[q] == ScanPairs(s, p, st, pairs, key).e.c
    ensures q < |t| && t[..q + 1] == s[..q + 1] ==> ScanPairs(t, p, st, pairs, key) == ScanPairs(s, p, st, pairs, key)
    decreases |s| - p, 0
  {
    hide ScanVal;
    var next := NextState(s[p], st);
    if next.0 {
      SyntaxStays(s, t, p + 1, next.1, pairs, key, q);
    }
    if q < |t| && t[..q + 1] == s[..q + 1] {
      assert t[p] == t[..q + 1][p] && s[p] == s[..q + 1][p];
    }
  }

  /** Whether the parser goes on past a character between words, and in which state. */
  ghost function NextState(c: char, st: PairState): (bool, PairState) {
    if st == WEq then (c == '=' || IsSpace(c), if c == '=' then WGt else WEq)
    else if st == WGt then (c == '>', WVal)
    else (c == ',' || IsSpace(c), if c == ',' then WKey else WDel)
  }

  /** Up to there the text is a beginning of an accepted one, or accepted itself. */
  lemma {:induction false} CutBefore(s: string, p: nat, st: PairState, pairs: seq<Pairs>, key: string, q: int)
    requires p <= |s| && SyntaxAt(ScanPairs(s, p, st, pairs, key), q)
    ensures p <= q < |s|
    ensures var r := ScanPairs(s[..q], p, st, pairs, key); r.Parsed? || r == Failed(UnexpectedEnd)
    decreases |s| - p
  {
    SyntaxStays(s, s, p, st, pairs, key, q);
    if st == WKey || st == WVal {
      var v := ScanVal(s, p, WaitVal, "", false, st == WVal);
      ValCut(s, q, p, WaitVal, "", false, st == WVal);
      if st == WVal { NoSyntax(s, p, WaitVal, "", false); }
      hide ScanVal;
      if v.Got? {
        var ps := if st == WKey then pairs else pairs + [Pairs(key, v.word, SpellsNull(v.word) && !v.escaped, true)];
        CutBefore(s, v.ptr + 1, if st == WKey then WEq else WDel, ps, if st == WKey then v.word else key, q);
      }
    } else {
      hide ScanVal;
      CutStep(s, p, st, pairs, key, q);
    }
  }

  lemma {:induction false} CutStep(s: string, p: nat, st: PairState, pairs: seq<Pairs>, key: string, q: int)
    requires p <= q < |s| && st != WKey && st != WVal && SyntaxAt(ScanPairs(s, p, st, pairs, key), q)
    ensures var r := ScanPairs(s[..q], p, st, pairs, key); r.Parsed? || r == Failed(UnexpectedEnd)
    decreases |s| - p, 0
  {
    hide ScanVal;
    var next := NextState(s[p], st);
    if p < q {
      assert s[..q][p] == s[p];
      CutBefore(s, p + 1, next.1, pairs, key, q);
    }
  }

  /** A value has no syntax errors. */
  lemma {:induction false} NoSyntax(s: string, p: nat, st: ValState, word: string, escaped: bool)
    requires p <= |s|
    ensures var r := ScanVal(s, p, st, word, escaped, true); r.Bad? ==> !r.e.Syntax?
    decreases |s| - p
  {
    if p < |s| {
      var m := p + 1;
      forall st', w, e {:trigger ScanVal(s, m, st', w, e, true)}
        ensures var r := ScanVal(s, m, st', w, e, true); r.Bad? ==> !r.e.Syntax?
      {
        NoSyntax(s, m, st', w, e);
      }
    }
  }

  // ------------------------------------------------------ unexpected ends

  /** What completes a word that was broken off, and then the pair. */
  ghost function Closing(st: ValState): string {
    match st
    case InEscVal => "\""
    case WaitEscEscIn => "a\""
    case WaitEscIn => "a"
    case _ => ""
  }

  ghost function Rest(ignoreeq: bool): string {
    if ignoreeq then "" else "=>x"
  }

  /** The word is complete at the end of t, or before the rest of the pair. */
  ghost predicate Completed(r: Scan, t: string, ignoreeq: bool) {
    r == Bad(NoRoom) || (r.Got? && r.ptr + 1 == |t| - |Rest(ignoreeq)|)
  }

  /** A word broken off by the end of the text can be completed, unless it fills its
      buffer. */
  lemma {:induction false} ValCompletion(
    s: string, p: nat, st: ValState, word: string, escaped: bool, ignoreeq: bool) returns (u: string)
    requires p <= |s| && NoNul(s) && ScanVal(s, p, st, word, escaped, ignoreeq) == Bad(UnexpectedEnd)
    ensures u in ["\"", "a\"", "a"]
    ensures var t := s + u + Rest(ignoreeq);
      Completed(ScanVal(t, p, st, word, escaped, ignoreeq), t, ignoreeq)
    decreases |s| - p
  {
    if p == |s| {
      u := Closing(st);
      CloseWord(s, s + u + Rest(ignoreeq), st, word, escaped, ignoreeq);
    } else {
      var st', w, e := ValNext(s, p, st, word, escaped, ignoreeq);
      u := ValCompletion(s, p + 1, st', w, e, ignoreeq);
      ValAgain(s, s + u + Rest(ignoreeq), p, st, word, escaped, ignoreeq, st', w, e);
    }
  }

  lemma {:induction false} CloseWord(
    s: string, t: string, st: ValState, word: string, escaped: bool, ignoreeq: bool)
    requires NoNul(s) && st in [InEscVal, WaitEscEscIn, WaitEscIn] && t == s + Closing(st) + Rest(ignoreeq)
    ensures Completed(ScanVal(t, |s|, st, word, escaped, ignoreeq), t, ignoreeq)
  {
    hide IsSpace;
    var n := |s|;
    assert st == InEscVal ==> t[n] == '"';
    assert st == WaitEscEscIn ==> t[n] == 'a' && t[n + 1] == '"';
    assert st == WaitEscIn ==> t[n] == 'a';
    assert st == WaitEscIn && !ignoreeq ==> t[n + 1] == '=';
    assert !IsSpace('=') && !IsSpace('\0') by { Marks(); }
  }

  lemma {:induction false} Marks()
    ensures !IsSpace('=') && !IsSpace('\0') && !IsSpace('x') && !IsSpace('>') && !IsSpace('"')
  {
  }

  /** The state behind a character that does not end the scan. */
  lemma {:induction false} ValNext(s: string, p: nat, st: ValState, word: string, escaped: bool, ignoreeq: bool)
    returns (st': ValState, w: string, e: bool)
    requires p < |s| && NoNul(s) && ScanVal(s, p, st, word, escaped, ignoreeq) == Bad(UnexpectedEnd)
    ensures ScanVal(s, p + 1, st', w, e, ignoreeq) == Bad(UnexpectedEnd)
    ensures forall t :: p < |t| && t[p] == s[p] ==>
      ScanVal(t, p, st, word, escaped, ignoreeq) == ScanVal(t, p + 1, st', w, e, ignoreeq)
  {
    hide IsSpace;
    var c := s[p];
    match st
    case WaitVal =>
      if c == '"' {
        st', w, e := InEscVal, word, true;
      } else if c == '\\' {
        st', w, e := WaitEscIn, word, escaped;
      } else if !IsSpace(c) {
        st', w, e := InVal, word + [c], escaped;
      } else {
        st', w, e := WaitVal, word, escaped;
      }
    case InVal =>
      st', w, e := if c == '\\' then WaitEscIn else InVal, if c == '\\' then word else word + [c], escaped;
    case InEscVal =>
      st', w, e := if c == '\\' then WaitEscEscIn else InEscVal, if c == '\\' then word else word + [c], escaped;
    case WaitEscIn => st', w, e := InVal, word + [c], escaped;
    case WaitEscEscIn => st', w, e := InEscVal, word + [c], escaped;
  }

  lemma {:induction false} ValAgain(
    s: string, t: string, p: nat, st: ValState, word: string, escaped: bool, ignoreeq: bool,
    st': ValState, w: string, e: bool)
    requires p < |s| <= |t| && s <= t && Completed(ScanVal(t, p + 1, st', w, e, ignoreeq), t, ignoreeq)
    requires forall t :: p < |t| && t[p] == s[p] ==>
      ScanVal(t, p, st, word, escaped, ignoreeq) == ScanVal(t, p + 1, st', w, e, ignoreeq)
    ensures Completed(ScanVal(t, p, st, word, escaped, ignoreeq), t, ignoreeq)
  {
    hide ScanVal;
    assert t[p] == s[p];
  }

  /** The end of a key is seen at the end of the text or at the equals sign. */
  lemma {:induction false} KeyThenArrow(s: string, p: nat, st: ValState, word: string, escaped: bool)
    requires p <= |s| && NoNul(s)
    ensures var r := ScanVal(s, p, st, word, escaped, false);
      r.Got? ==> ScanVal(s + "=>x", p, st, word, escaped, false) == r
    decreases |s| - p
  {
    var t, m := s + "=>x", p + 1;
    assert At(t, p) == if p < |s| then s[p] else '=';
    if p < |s| {
      forall st', w, e {:trigger ScanVal(s, m, st', w, e, false)}
        ensures var r := ScanVal(s, m, st', w, e, false); r.Got? ==> ScanVal(t, m, st', w, e, false) == r
      {
        KeyThenArrow(s, m, st', w, e);
      }
    }
  }

  /** Blanks where a value is missing. */
  lemma {:induction false} ValueThere(s: string, p: nat, st: ValState, word: string, escaped: bool)
    requires p <= |s| && NoNul(s) && ScanVal(s, p, st, word, escaped, true).End?
    ensures st == WaitVal
    ensures ScanVal(s + "x", p, WaitVal, word, escaped, true) == Got(|s|, word + "x", escaped)
    decreases |s| - p
  {
    Marks();
    var t, m := s + "x", p + 1;
    assert At(t, p) == if p < |s| then s[p] else 'x';
    if p < |s| {
      forall st', w, e {:trigger ScanVal(s, m, st', w, e, true)} | ScanVal(s, m, st', w, e, true).End?
        ensures st' == WaitVal && ScanVal(t, m, WaitVal, w, e, true) == Got(|s|, w + "x", e)
      {
        ValueThere(s, m, st', w, e);
      }
    } else {
      assert At(t, m) == '\0' && [] + ['x'] == "x";
    }
  }

  /** What is left of a pair behind its key. */
  lemma {:induction false} ArrowAndValue(t: string, p: nat, st: PairState, pairs: seq<Pairs>, key: string)
    requires p <= |t| && (st == WEq || st == WGt || st == WVal)
    requires t[p..] == if st == WEq then "=>x" else if st == WGt then ">x" else "x"
    ensures ScanPairs(t, p, st, pairs, key).Parsed?
    decreases |t| - p
  {
    assert t[p] == t[p..][0];
    if st == WVal {
      OneX(t, p);
      hide ScanVal;
      assert |t| == p + 1;
    } else {
      hide ScanVal;
      assert t[p + 1..] == t[p..][1..];
      ArrowAndValue(t, p + 1, if st == WEq then WGt else WVal, pairs, key);
    }
  }

  lemma {:induction false} OneX(t: string, p: nat)
    requires p <= |t| && t[p..] == "x"
    ensures |t| == p + 1 && ScanVal(t, p, WaitVal, "", false, true) == Got(p, "x", false)
  {
    Marks();
    hide IsSpace;
    assert t[p] == t[p..][0];
    assert "" + ['x'] == "x";
    assert ScanVal(t, p + 1, InVal, "x", false, true) == Got(p, "x", false);
  }

  ghost predicate Accepted(r: Parse) {
    r.Parsed? || r == Failed(NoRoom)
  }

  /** A text that ends too soon can be completed by at most five characters, as far
      as there is room for these. */
  lemma {:induction false} Completion(s: string, p: nat, st: PairState, pairs: seq<Pairs>, key: string)
    returns (u: string)
    requires p <= |s| && NoNul(s) && ScanPairs(s, p, st, pairs, key) == Failed(UnexpectedEnd)
    ensures NoNul(u) && |u| <= 5 && Accepted(ScanPairs(s + u, p, st, pairs, key))
    decreases |s| - p, 1
  {
    hide ScanPairs;
    if st == WKey {
      u := KeyCompletion(s, p, pairs, key);
    } else if st == WVal {
      u := ValueCompletion(s, p, pairs, key);
    } else {
      u := BetweenCompletion(s, p, st, pairs, key);
    }
  }

  lemma {:induction false} BetweenCompletion(s: string, p: nat, st: PairState, pairs: seq<Pairs>, key: string)
    returns (u: string)
    requires p <= |s| && NoNul(s) && st != WKey && st != WVal
    requires ScanPairs(s, p, st, pairs, key) == Failed(UnexpectedEnd)
    ensures NoNul(u) && |u| <= 5 && Accepted(ScanPairs(s + u, p, st, pairs, key))
    decreases |s| - p, 0
  {
    hide ScanVal;
    if p == |s| {
      u := if st == WEq then "=>x" else ">x";
      assert (s + u)[p..] == u;
      ArrowAndValue(s + u, p, st, pairs, key);
    } else {
      u := Completion(s, p + 1, NextState(s[p], st).1, pairs, key);
      assert (s + u)[p] == s[p];
    }
  }

  lemma {:induction false} KeyCompletion(s: string, p: nat, pairs: seq<Pairs>, key: string) returns (u: string)
    requires p <= |s| && NoNul(s) && ScanPairs(s, p, WKey, pairs, key) == Failed(UnexpectedEnd)
    ensures NoNul(u) && |u| <= 5 && Accepted(ScanPairs(s + u, p, WKey, pairs, key))
    decreases |s| - p, 0
  {
    var v := ScanVal(s, p, WaitVal, "", false, false);
    if v.Bad? {
      var c := ValCompletion(s, p, WaitVal, "", false, false);
      u := c + "=>x";
      var t := s + u;
      assert t == s + c + Rest(false);
      WordShort(t, p, WaitVal, "", false, false);
      hide ScanVal;
      var q := |t| - 3;
      assert t[q..] == "=>x";
      forall w ensures ScanPairs(t, q, WEq, pairs, w).Parsed? {
        ArrowAndValue(t, q, WEq, pairs, w);
      }
    } else if v.ptr + 1 == |s| {
      u := "=>x";
      KeyThenArrow(s, p, WaitVal, "", false);
      hide ScanVal;
      assert (s + u)[|s|..] == u;
      ArrowAndValue(s + u, |s|, WEq, pairs, v.word);
    } else {
      hide ScanVal;
      u := Completion(s, v.ptr + 1, WEq, pairs, v.word);
      assert s[..|s|] == (s + u)[..|s|];
      ValLocal(s, s + u, |s|, p, WaitVal, "", false, false);
    }
  }

  lemma {:induction false} ValueCompletion(s: string, p: nat, pairs: seq<Pairs>, key: string) returns (u: string)
    requires p <= |s| && NoNul(s) && ScanPairs(s, p, WVal, pairs, key) == Failed(UnexpectedEnd)
    ensures NoNul(u) && |u| <= 5 && Accepted(ScanPairs(s + u, p, WVal, pairs, key))
    decreases |s| - p, 0
  {
    var v := ScanVal(s, p, WaitVal, "", false, true);
    if v.Bad? {
      u := ValCompletion(s, p, WaitVal, "", false, true);
      var t := s + u;
      assert t == s + u + Rest(true);
      WordShort(t, p, WaitVal, "", false, true);
      hide ScanVal;
      forall ps, k ensures ScanPairs(t, |t|, WDel, ps, k) == Parsed(ps) {
      }
    } else if v.End? {
      u := "x";
      ValueThere(s, p, WaitVal, "", false);
      hide ScanVal;
      assert |"" + "x"| == 1;
    } else {
      hide ScanVal;
      var ps := pairs + [Pairs(key, v.word, SpellsNull(v.word) && !v.escaped, true)];
      u := Completion(s, v.ptr + 1, WDel, ps, key);
      assert s[..|s|] == (s + u)[..|s|];
      ValLocal(s, s + u, |s|, p, WaitVal, "", false, true);
    }
  }

  // ------------------------------------------------------- the whole text

  /** The text t goes on from s. */
  ghost predicate Continues(t: string, s: string) {
    s <= t && NoNul(t)
  }

  function ParseText(s: string): Parse {
    ScanPairs(s, 0, WKey, [], "")
  }

  /** A syntax error is at the first character behind which no text is accepted; an
      unexpected end is reported of a text that at most five characters complete, if
      there is room for them. */
  lemma {:induction false} ErrorsMean(s: string)
    requires NoNul(s) && ParseText(s).Failed?
    ensures ParseText(s).e in [UnexpectedEnd, NoRoom] || ParseText(s).e.Syntax?
    ensures ParseText(s).e == UnexpectedEnd ==>
      exists t :: Continues(t, s) && |t| <= |s| + 5 && Accepted(ParseText(t))
    ensures ParseText(s).e.Syntax? ==>
      var q := ParseText(s).e.pos;
      && 0 <= q < |s| && s[q] == ParseText(s).e.c
      && (forall t :: Continues(t, s[..q + 1]) ==> ParseText(t) == ParseText(s))
      && exists t :: Continues(t, s[..q]) && |t| <= q + 5 && Accepted(ParseText(t))
  {
    hide ScanPairs;
    NeverTooLong(s, 0, WKey, [], "");
    var r := ParseText(s);
    if r.e == UnexpectedEnd {
      var u := Completion(s, 0, WKey, [], "");
      assert Continues(s + u, s) && Accepted(ParseText(s + u));
    } else if r.e.Syntax? {
      var q := r.e.pos;
      SyntaxStays(s, s, 0, WKey, [], "", q);
      forall t | Continues(t, s[..q + 1]) ensures ParseText(t) == r {
        assert t[..q + 1] == s[..q + 1];
        SyntaxStays(s, t, 0, WKey, [], "", q);
      }
      CutBefore(s, 0, WKey, [], "", q);
      if ParseText(s[..q]).Parsed? {
        assert Continues(s[..q], s[..q]) && Accepted(ParseText(s[..q]));
      } else {
        var u := Completion(s[..q], 0, WKey, [], "");
        assert Continues(s[..q] + u, s[..q]) && Accepted(ParseText(s[..q] + u));
      }
    }
  }
}
