/** `levenshtein_internal` of fuzzystrmatch: the two-row dynamic program, the
    edit scripts it minimises over, and what the minimum means for arbitrary
    chains of single-character edits. */
module Levenshtein {
  import opened Int32

  const MAX_LEVENSHTEIN_STRLEN := 255

  datatype Costs = Costs(ins: int, del: int, sub: int) {
    ghost predicate NonNegative() {
      0 <= ins && 0 <= del && 0 <= sub
    }
  }

  // -------------------------------------------------------- edit scripts

  datatype Op = Insert | Delete | Put

  function Front(s: string): string
    requires s != []
  {
    s[..|s| - 1]
  }

  function Last(s: string): char
    requires s != []
  {
    s[|s| - 1]
  }

  /** The price of turning x into y in place. */
  function PutCost(x: char, y: char, c: Costs): int {
    if x == y then 0 else c.sub
  }

  /** The script e, read left to right, turns s into t: `Insert` writes the next
      character of t, `Delete` skips one of s, `Put` replaces one by the other. */
  ghost predicate Turns(e: seq<Op>, s: string, t: string) {
    if e == [] then s == [] && t == []
    else match e[|e| - 1]
      case Insert => t != [] && Turns(e[..|e| - 1], s, Front(t))
      case Delete => s != [] && Turns(e[..|e| - 1], Front(s), t)
      case Put => s != [] && t != [] && Turns(e[..|e| - 1], Front(s), Front(t))
  }

  ghost function ScriptCost(e: seq<Op>, s: string, t: string, c: Costs): int
    requires Turns(e, s, t)
  {
    if e == [] then 0
    else match e[|e| - 1]
      case Insert => ScriptCost(e[..|e| - 1], s, Front(t), c) + c.ins
      case Delete => ScriptCost(e[..|e| - 1], Front(s), t, c) + c.del
      case Put => ScriptCost(e[..|e| - 1], Front(s), Front(t), c) + PutCost(Last(s), Last(t), c)
  }

  /** d is the least cost of any script from s to t. */
  ghost predicate IsLeastCost(d: int, s: string, t: string, c: Costs) {
    (exists e :: Turns(e, s, t) && ScriptCost(e, s, t, c) == d)
    && forall e :: Turns(e, s, t) ==> d <= ScriptCost(e, s, t, c)
  }

  // -------------------------------------------------------- the recurrence

  function Min(x: int, y: int): int {
    if x < y then x else y
  }

  /** The cell of the notional matrix for the prefixes s and t. */
  function Dist(s: string, t: string, c: Costs): int
    decreases |s| + |t|
  {
    if s == [] then |t| * c.ins
    else if t == [] then |s| * c.del
    else Min(Min(Dist(s, Front(t), c) + c.ins, Dist(Front(s), t, c) + c.del),
             Dist(Front(s), Front(t), c) + PutCost(Last(s), Last(t), c))
  }

  /** Dist never exceeds any of its three neighbours plus one operation, and
      equals one of them. */
  lemma {:induction false} DistSteps(s: string, t: string, c: Costs)
    ensures s == [] && t == [] ==> Dist(s, t, c) == 0
    ensures t != [] ==> Dist(s, t, c) <= Dist(s, Front(t), c) + c.ins
    ensures s != [] ==> Dist(s, t, c) <= Dist(Front(s), t, c) + c.del
    ensures s != [] && t != [] ==> Dist(s, t, c) <= Dist(Front(s), Front(t), c) + PutCost(Last(s), Last(t), c)
    ensures (s == [] && t == [])
         || (t != [] && Dist(s, t, c) == Dist(s, Front(t), c) + c.ins)
         || (s != [] && Dist(s, t, c) == Dist(Front(s), t, c) + c.del)
         || (s != [] && t != [] && Dist(s, t, c) == Dist(Front(s), Front(t), c) + PutCost(Last(s), Last(t), c))
  {
    if t != [] && s == [] { assert |t| * c.ins == (|t| - 1) * c.ins + c.ins; }
    if s != [] && t == [] { assert |s| * c.del == (|s| - 1) * c.del + c.del; }
  }

  lemma {:induction false} NoScriptBeats(e: seq<Op>, s: string, t: string, c: Costs)
    requires Turns(e, s, t)
    ensures Dist(s, t, c) <= ScriptCost(e, s, t, c)
  {
    if e != [] {
      var e' := e[..|e| - 1];
      DistSteps(s, t, c);
      match e[|e| - 1]
      case Insert => NoScriptBeats(e', s, Front(t), c);
      case Delete => NoScriptBeats(e', Front(s), t, c);
      case Put => NoScriptBeats(e', Front(s), Front(t), c);
    }
  }

  lemma {:induction false} BestScript(s: string, t: string, c: Costs) returns (e: seq<Op>)
    ensures Turns(e, s, t) && ScriptCost(e, s, t, c) == Dist(s, t, c)
    decreases |s| + |t|
  {
    if s == [] && t == [] {
      e := [];
    } else {
      DistSteps(s, t, c);
      var e';
      if t != [] && Dist(s, t, c) == Dist(s, Front(t), c) + c.ins {
        e' := BestScript(s, Front(t), c);
        e := e' + [Insert];
      } else if s != [] && Dist(s, t, c) == Dist(Front(s), t, c) + c.del {
        e' := BestScript(Front(s), t, c);
        e := e' + [Delete];
      } else {
        e' := BestScript(Front(s), Front(t), c);
        e := e' + [Put];
      }
      assert e[..|e| - 1] == e';
    }
  }

  /** The recurrence is the minimum over all scripts, for any integer costs. */
  lemma {:induction false} DistIsLeastCost(s: string, t: string, c: Costs)
    ensures IsLeastCost(Dist(s, t, c), s, t, c)
  {
    var best := BestScript(s, t, c);
    forall e | Turns(e, s, t) ensures Dist(s, t, c) <= ScriptCost(e, s, t, c) {
      NoScriptBeats(e, s, t, c);
    }
  }

  // ------------------------------------------------------ the C function

  datatype Outcome = TooLong | Distance(d: int)

  /** The same cell computed in 32-bit ints. */
  function WDist(s: string, t: string, c: Costs): int
    decreases |s| + |t|
  {
    if s == [] then Wrap(|t| * c.ins)
    else if t == [] then Wrap(|s| * c.del)
    else Min(Min(Wrap(WDist(s, Front(t), c) + c.ins), Wrap(WDist(Front(s), t, c) + c.del)),
             Wrap(WDist(Front(s), Front(t), c) + PutCost(Last(s), Last(t), c)))
  }

  ghost predicate AtMost(c: Costs, k: int) {
    0 <= k && -k <= c.ins <= k && -k <= c.del <= k && -k <= c.sub <= k
  }

  /** The costs are small enough for the lengths: (|s| + |t|) times the largest
      magnitude is an int. */
  ghost predicate Fits(s: string, t: string, c: Costs, k: int) {
    AtMost(c, k) && (|s| + |t|) * k <= MAX
  }

  ghost function Times(n: int, k: int): int { n * k }

  lemma {:induction false} DistBound(s: string, t: string, c: Costs, k: int)
    requires AtMost(c, k)
    ensures -((|s| + |t|) * k) <= Dist(s, t, c) <= (|s| + |t|) * k
  {
    hide Dist;
    DistWithin(s, t, c, k);
  }

  lemma {:induction false} DistWithin(s: string, t: string, c: Costs, k: int)
    requires AtMost(c, k)
    ensures -Times(|s| + |t|, k) <= Dist(s, t, c) <= Times(|s| + |t|, k)
    decreases |s| + |t|
  {
    hide Times, Min;
    if s == [] {
      ScaleTimes(|t|, c.ins, k);
    } else if t == [] {
      ScaleTimes(|s|, c.del, k);
    } else {
      DistWithin(s, Front(t), c, k);
      DistWithin(Front(s), t, c, k);
      DistWithin(Front(s), Front(t), c, k);
      TimesStep(|s| + |t|, k);
      TimesStep(|s| + |t| - 1, k);
      MinWithin(Dist(s, Front(t), c) + c.ins, Dist(Front(s), t, c) + c.del,
        Dist(Front(s), Front(t), c) + PutCost(Last(s), Last(t), c), Times(|s| + |t|, k));
    }
  }

  lemma {:induction false} ScaleTimes(n: nat, x: int, k: int)
    requires 0 <= k && -k <= x <= k
    ensures -Times(n, k) <= n * x <= Times(n, k)
  {
    Scale(n, x, k);
  }

  lemma {:induction false} MinWithin(x: int, y: int, z: int, b: int)
    requires -b <= x <= b && -b <= y <= b && -b <= z <= b
    ensures -b <= Min(Min(x, y), z) <= b
  {
  }

  lemma {:induction false} TimesStep(n: int, k: int)
    ensures Times(n, k) == Times(n - 1, k) + k
  {
  }

  lemma {:induction false} OneMoreTimes(n: int, k: int)
    ensures (n - 1) * k + k == n * k && (n - 2) * k + k == (n - 1) * k
  {
  }

  lemma {:induction false} Scale(n: nat, x: int, k: int)
    requires 0 <= k && -k <= x <= k
    ensures -(n * k) <= n * x <= n * k
  {
    assert n * (k - x) >= 0 && n * (x + k) >= 0;
  }

  lemma {:induction false} FitsFronts(s: string, t: string, c: Costs, k: int)
    requires Fits(s, t, c, k) && s != [] && t != []
    ensures Fits(s, Front(t), c, k) && Fits(Front(s), t, c, k) && Fits(Front(s), Front(t), c, k)
    ensures Reaches(Dist(s, Front(t), c), c.ins) && Reaches(Dist(Front(s), t, c), c.del)
    ensures Reaches(Dist(Front(s), Front(t), c), PutCost(Last(s), Last(t), c))
  {
    hide Dist;
    DistBound(s, Front(t), c, k);
    DistBound(Front(s), t, c, k);
    DistBound(Front(s), Front(t), c, k);
    OneMoreTimes(|s| + |t|, k);
  }

  /** Nothing wraps when the costs fit. */
  lemma {:induction false} ExactWhenFits(s: string, t: string, c: Costs, k: int)
    requires Fits(s, t, c, k)
    ensures WDist(s, t, c) == Dist(s, t, c)
    decreases |s| + |t|
  {
    hide Dist, WDist, Reaches;
    DistBound(s, t, c, k);
    if s != [] && t != [] {
      FitsFronts(s, t, c, k);
      ExactWhenFits(s, Front(t), c, k);
      ExactWhenFits(Front(s), t, c, k);
      ExactWhenFits(Front(s), Front(t), c, k);
    }
    ExactStep(s, t, c);
  }

  function Longer(s: string, t: string): nat {
    if |s| > |t| then |s| else |t|
  }

  /** Costs that are not negative leave more room: the distance is at most the
      longer length times the largest cost. */
  ghost predicate FitsNonNegative(s: string, t: string, c: Costs, k: int) {
    c.NonNegative() && AtMost(c, k) && (Longer(s, t) + 1) * k <= MAX
  }

  lemma {:induction false} LongerBound(s: string, t: string, c: Costs, k: int)
    requires c.NonNegative() && AtMost(c, k)
    ensures 0 <= Dist(s, t, c) <= Longer(s, t) * k
    decreases |s| + |t|
  {
    NonNegativeDist(s, t, c);
    if s == [] {
      Scale(|t|, c.ins, k);
    } else if t == [] {
      Scale(|s|, c.del, k);
    } else {
      LongerBound(Front(s), Front(t), c, k);
      DistSteps(s, t, c);
      OneMoreTimes(Longer(s, t), k);
    }
  }

  lemma {:induction false} LongerStep(s: string, t: string, s': string, t': string, c: Costs, k: int, x: int)
    requires FitsNonNegative(s, t, c, k) && |s'| <= |s| && |t'| <= |t| && 0 <= x <= k
    ensures FitsNonNegative(s', t', c, k) && Reaches(Dist(s', t', c), x)
  {
    hide Dist;
    LongerBound(s', t', c, k);
    Scale(k, Longer(s', t'), Longer(s, t));
    assert Longer(s', t') * k <= Longer(s, t) * k;
    OneMoreTimes(Longer(s, t) + 1, k);
    OneMoreTimes(Longer(s', t') + 1, k);
  }

  /** Nothing wraps then, either. */
  lemma {:induction false} ExactWhenNonNegative(s: string, t: string, c: Costs, k: int)
    requires FitsNonNegative(s, t, c, k)
    ensures WDist(s, t, c) == Dist(s, t, c)
    decreases |s| + |t|
  {
    hide Dist, WDist, Reaches, FitsNonNegative;
    CostsFit(s, t, c, k);
    LongerStep(s, t, s, t, c, k, 0);
    ReachesZero(Dist(s, t, c));
    if s != [] && t != [] {
      LongerStep(s, t, s, Front(t), c, k, c.ins);
      LongerStep(s, t, Front(s), t, c, k, c.del);
      LongerStep(s, t, Front(s), Front(t), c, k, PutCost(Last(s), Last(t), c));
      ExactWhenNonNegative(s, Front(t), c, k);
      ExactWhenNonNegative(Front(s), t, c, k);
      ExactWhenNonNegative(Front(s), Front(t), c, k);
    }
    ExactStep(s, t, c);
  }

  lemma {:induction false} ReachesZero(d: int)
    requires Reaches(d, 0)
    ensures IsInt32(d)
  {
  }

  lemma {:induction false} CostsFit(s: string, t: string, c: Costs, k: int)
    requires FitsNonNegative(s, t, c, k)
    ensures 0 <= c.ins <= k && 0 <= c.del <= k && 0 <= c.sub <= k
  {
  }

  ghost predicate Reaches(d: int, step: int) {
    IsInt32(d + step)
  }

  lemma {:induction false} ExactStep(s: string, t: string, c: Costs)
    requires IsInt32(Dist(s, t, c))
    requires s != [] && t != [] ==>
      && WDist(s, Front(t), c) == Dist(s, Front(t), c)
      && WDist(Front(s), t, c) == Dist(Front(s), t, c)
      && WDist(Front(s), Front(t), c) == Dist(Front(s), Front(t), c)
      && Reaches(Dist(s, Front(t), c), c.ins) && Reaches(Dist(Front(s), t, c), c.del)
      && Reaches(Dist(Front(s), Front(t), c), PutCost(Last(s), Last(t), c))
    ensures WDist(s, t, c) == Dist(s, t, c)
  {
    hide Wrap;
  }

  /** Deleting all and inserting all is one way. */
  lemma {:induction false} DeleteInsert(s: string, t: string, c: Costs)
    ensures Dist(s, t, c) <= |s| * c.del + |t| * c.ins
    decreases |t|
  {
    if s != [] && t != [] {
      DeleteInsert(s, Front(t), c);
      DistSteps(s, t, c);
      assert |t| * c.ins == (|t| - 1) * c.ins + c.ins;
    }
  }

  /** The largest costs for which no int wraps on strings of 255 characters. */
  const MAX_COST := 4210752

  ghost predicate ExactUpTo(k: int) {
    forall s, t, c :: Accepted(s, t) && AtMost(c, k) ==> WDist(s, t, c) == Dist(s, t, c)
  }

  ghost predicate Accepted(s: string, t: string) {
    |s| <= MAX_LEVENSHTEIN_STRLEN && |t| <= MAX_LEVENSHTEIN_STRLEN
  }

  /** On the strings the function accepts, the 32-bit computation is exact for all
      costs of magnitude at most k exactly when k is at most 4210752. */
  lemma {:induction false} CostLimit(k: nat)
    ensures ExactUpTo(k) <==> k <= MAX_COST
  {
    hide WDist, Dist;
    if k <= MAX_COST {
      forall s, t, c | Accepted(s, t) && AtMost(c, k) ensures WDist(s, t, c) == Dist(s, t, c) {
        assert (|s| + |t|) * k <= 510 * k by { Scale(k, |s| + |t|, 510); }
        ExactWhenFits(s, t, c, k);
      }
    } else {
      var s, t := seq(255, _ => 'a'), seq(255, _ => 'b');
      var c := Costs(-MAX_COST - 1, -MAX_COST - 1, 0);
      DeleteInsert(s, t, c);
      assert Accepted(s, t) && AtMost(c, k);
      WDistIsInt(s, t, c);
    }
  }

  /** The largest costs, none negative, for which no int wraps. */
  const MAX_NON_NEGATIVE_COST := 8388607

  ghost predicate ExactForNonNegative(k: int) {
    forall s, t, c :: Accepted(s, t) && AtMost(c, k) && c.NonNegative() ==> WDist(s, t, c) == Dist(s, t, c)
  }

  /** On the strings the function accepts, the 32-bit computation is exact for all
      non-negative costs of at most k exactly when k is at most 8388607. */
  lemma {:induction false} NonNegativeCostLimit(k: nat)
    ensures ExactForNonNegative(k) <==> k <= MAX_NON_NEGATIVE_COST
  {
    hide WDist, Dist;
    if k <= MAX_NON_NEGATIVE_COST {
      forall s, t, c | Accepted(s, t) && AtMost(c, k) && c.NonNegative() ensures WDist(s, t, c) == Dist(s, t, c) {
        assert (Longer(s, t) + 1) * k <= 256 * k by { Scale(k, Longer(s, t) + 1, 256); }
        ExactWhenNonNegative(s, t, c, k);
      }
    } else {
      var c := Costs(0x80_0000, 0x80_0000, 0x80_0000);
      WrapsAt(c);
      NonNegativeDist(seq(255, _ => 'a'), "b", c);
      assert Accepted(seq(255, _ => 'a'), "b") && AtMost(c, k);
    }
  }

  /** 255 characters deleted and one inserted cost 2^31 at 2^23 each. */
  lemma {:induction false} WrapsAt(c: Costs)
    requires c == Costs(0x80_0000, 0x80_0000, 0x80_0000)
    ensures WDist(seq(255, _ => 'a'), "b", c) < 0
  {
    hide Wrap;
    var s := seq(255, _ => 'a');
    assert Front("b") == [];
    assert WDist(s, [], c) == Wrap(255 * 0x80_0000) == 255 * 0x80_0000;
    assert Wrap(256 * 0x80_0000) == -0x8000_0000 by { HighestWraps(); }
    assert WDist(s, "b", c) <= Wrap(WDist(s, Front("b"), c) + c.ins);
  }

  lemma {:induction false} HighestWraps()
    ensures Wrap(0x8000_0000) == -0x8000_0000
  {
  }

  lemma {:induction false} WDistIsInt(s: string, t: string, c: Costs)
    ensures IsInt32(WDist(s, t, c))
  {
  }

  /** Row j of the matrix: the distances of every prefix of s to t[..j]. */
  ghost predicate Row(row: seq<int>, s: string, t: string, j: int, n: int, c: Costs)
    requires 0 <= j <= |t| && n <= |s| + 1 && n <= |row|
  {
    forall i :: 0 <= i < n ==> row[i] == WDist(s[..i], t[..j], c)
  }

  lemma {:induction false} CellStep(s: string, t: string, i: int, j: int, c: Costs)
    requires 0 < i <= |s| && 0 < j <= |t|
    ensures WDist(s[..i], t[..j], c)
         == Min(Min(Wrap(WDist(s[..i], t[..j - 1], c) + c.ins), Wrap(WDist(s[..i - 1], t[..j], c) + c.del)),
                Wrap(WDist(s[..i - 1], t[..j - 1], c) + PutCost(s[i - 1], t[j - 1], c)))
  {
    hide WDist, Wrap;
    WDistStep(s[..i], t[..j], c);
    assert Front(s[..i]) == s[..i - 1] && Front(t[..j]) == t[..j - 1];
  }

  lemma {:induction false} WDistStep(s: string, t: string, c: Costs)
    requires s != [] && t != []
    ensures WDist(s, t, c)
         == Min(Min(Wrap(WDist(s, Front(t), c) + c.ins), Wrap(WDist(Front(s), t, c) + c.del)),
                Wrap(WDist(Front(s), Front(t), c) + PutCost(Last(s), Last(t), c)))
  {
    hide Wrap, Min, PutCost;
  }

  /** One buffer holds both rows; `prev` and `curr` are offsets into it that
      change places after every row. */
  method LevenshteinInternal(s: string, t: string, c: Costs) returns (r: Outcome)
    ensures r.TooLong? <==> s != [] && t != [] && (|s| > MAX_LEVENSHTEIN_STRLEN || |t| > MAX_LEVENSHTEIN_STRLEN)
    ensures r.Distance? ==> r.d == WDist(s, t, c)
    ensures r.Distance? ==> forall k: int :: Fits(s, t, c, k) || FitsNonNegative(s, t, c, k) ==>
      IsLeastCost(r.d, s, t, c)
  {
    hide Fits, FitsNonNegative, IsLeastCost, Wrap, Row;
    forall k: int | Fits(s, t, c, k) || FitsNonNegative(s, t, c, k) ensures IsLeastCost(WDist(s, t, c), s, t, c) {
      if Fits(s, t, c, k) {
        ExactWhenFits(s, t, c, k);
      } else {
        ExactWhenNonNegative(s, t, c, k);
      }
      DistIsLeastCost(s, t, c);
    }
    var m, n := |s|, |t|;
    if m == 0 {
      return Distance(Wrap(n * c.ins));
    }
    if n == 0 {
      return Distance(Wrap(m * c.del));
    }
    if m > MAX_LEVENSHTEIN_STRLEN || n > MAX_LEVENSHTEIN_STRLEN {
      return TooLong;
    }
    m, n := m + 1, n + 1;
    var buf := new int[2 * m];
    var prev, curr := 0, m;
    FirstRow(buf, s, t, c);
    for j := 1 to n
      invariant (prev == 0 && curr == m) || (prev == m && curr == 0)
      invariant Row(buf[prev..prev + m], s, t, j - 1, m, c)
    {
      FillRow(buf, prev, curr, s, t, j, c);
      prev, curr := curr, prev;
    }
    LastCell(buf[prev..prev + m], s, t, c);
    return Distance(buf[prev + m - 1]);
  }

  /** The distances to the empty string. */
  method FirstRow(buf: array<int>, s: string, ghost t: string, c: Costs)
    requires buf.Length >= |s| + 1
    modifies buf
    ensures Row(buf[0..|s| + 1], s, t, 0, |s| + 1, c)
  {
    hide Wrap;
    var m := |s| + 1;
    for i := 0 to m
      invariant forall k :: 0 <= k < i ==> buf[k] == Wrap(k * c.del)
    {
      buf[i] := Wrap(i * c.del);
    }
    forall i | 0 <= i < m ensures buf[0..m][i] == WDist(s[..i], t[..0], c) {
      assert buf[i] == Wrap(i * c.del);
    }
  }

  lemma {:induction false} LastCell(row: seq<int>, s: string, t: string, c: Costs)
    requires |row| == |s| + 1 && Row(row, s, t, |t|, |s| + 1, c)
    ensures row[|s|] == WDist(s, t, c)
  {
    hide WDist;
    assert s[..|s|] == s && t[..|t|] == t;
  }

  ghost function NextCell(above: seq<int>, row: seq<int>, i: int, x: char, y: char, c: Costs): seq<int>
    requires 1 <= i < |above| == |row|
  {
    row[i := Min(Min(Wrap(above[i] + c.ins), Wrap(row[i - 1] + c.del)), Wrap(above[i - 1] + PutCost(x, y, c)))]
  }

  lemma {:induction false} RowGrows(
    above: seq<int>, row: seq<int>, next: seq<int>, s: string, t: string, i: int, j: int, c: Costs)
    requires 1 <= j <= |t| && 1 <= i <= |s| && |above| == |row| == |s| + 1
    requires Row(above, s, t, j - 1, |s| + 1, c) && Row(row, s, t, j, i, c)
    requires next == NextCell(above, row, i, s[i - 1], t[j - 1], c)
    ensures Row(next, s, t, j, i + 1, c)
  {
    hide WDist, Wrap;
    CellStep(s, t, i, j, c);
  }

  /** The inner loop: row j at offset curr from row j-1 at offset prev. */
  method FillRow(buf: array<int>, prev: int, curr: int, s: string, t: string, j: int, c: Costs)
    requires buf.Length == 2 * |s| + 2 && 1 <= j <= |t|
    requires (prev == 0 && curr == |s| + 1) || (prev == |s| + 1 && curr == 0)
    requires Row(buf[prev..prev + |s| + 1], s, t, j - 1, |s| + 1, c)
    modifies buf
    ensures Row(buf[curr..curr + |s| + 1], s, t, j, |s| + 1, c)
  {
    var m := |s| + 1;
    ghost var above := buf[prev..prev + m];
    buf[curr] := Wrap(j * c.ins);
    assert Row(buf[curr..curr + m], s, t, j, 1, c);
    hide WDist, Wrap;
    for i := 1 to m
      invariant buf[prev..prev + m] == above
      invariant Row(buf[curr..curr + m], s, t, j, i, c)
    {
      ghost var done := buf[curr..curr + m];
      FillCell(buf, prev, curr, m, i, s[i - 1], t[j - 1], c);
      RowGrows(above, done, buf[curr..curr + m], s, t, i, j, c);
    }
  }

  /** One cell: the cheapest of an insertion, a deletion and a substitution. */
  method FillCell(buf: array<int>, prev: int, curr: int, m: int, i: int, x: char, y: char, c: Costs)
    requires buf.Length == 2 * m && 1 <= i < m && ((prev == 0 && curr == m) || (prev == m && curr == 0))
    modifies buf
    ensures buf[prev..prev + m] == old(buf[prev..prev + m])
    ensures buf[curr..curr + m]
         == NextCell(old(buf[prev..prev + m]), old(buf[curr..curr + m]), i, x, y, c)
  {
    hide Wrap, Min;
    var ins := Wrap(buf[prev + i] + c.ins);
    var del := Wrap(buf[curr + i - 1] + c.del);
    var sub := Wrap(buf[prev + i - 1] + if x == y then 0 else c.sub);
    ghost var b := buf[..];
    buf[curr + i] := Min(ins, del);
    buf[curr + i] := Min(buf[curr + i], sub);
    ghost var v := Min(Min(ins, del), sub);
    assert buf[..] == b[curr + i := v];
    Updated(b, prev, m, curr + i, v);
    Updated(b, curr, m, curr + i, v);
    hide NextCell;
    assert buf[prev..prev + m] == buf[..][prev..prev + m];
    assert buf[curr..curr + m] == buf[..][curr..curr + m];
    CellIs(b[prev..prev + m], b[curr..curr + m], i, x, y, c, v);
  }

  lemma {:induction false} CellIs(p: seq<int>, q: seq<int>, i: int, x: char, y: char, c: Costs, v: int)
    requires |p| == |q| && 1 <= i < |p|
    requires v == Min(Min(Wrap(p[i] + c.ins), Wrap(q[i - 1] + c.del)), Wrap(p[i - 1] + if x == y then 0 else c.sub))
    ensures NextCell(p, q, i, x, y, c) == q[i := v]
  {
    hide Wrap, Min;
  }

  lemma {:induction false} Updated(b: seq<int>, lo: nat, m: nat, k: nat, v: int)
    requires lo + m <= |b| && k < |b|
    ensures b[k := v][lo..lo + m] == if lo <= k < lo + m then b[lo..lo + m][k - lo := v] else b[lo..lo + m]
  {
  }

  // --------------------------------------------------- laws of the distance

  /** The triangle inequality, for every choice of non-negative costs. */
  lemma {:induction false} Triangle(s: string, u: string, t: string, c: Costs)
    requires c.NonNegative()
    ensures Dist(s, t, c) <= Dist(s, u, c) + Dist(u, t, c)
    decreases |s| + |u| + |t|
  {
    hide Dist;
    DistSteps(s, u, c);
    DistSteps(u, t, c);
    DistSteps(s, t, c);
    if s != [] && Dist(s, u, c) == Dist(Front(s), u, c) + c.del {
      Triangle(Front(s), u, t, c);
    } else if t != [] && Dist(u, t, c) == Dist(u, Front(t), c) + c.ins {
      Triangle(s, u, Front(t), c);
    } else if u != [] {
      TriangleMiddle(s, u, t, c);
    }
  }

  lemma {:induction false} TriangleMiddle(s: string, u: string, t: string, c: Costs)
    requires c.NonNegative() && u != []
    requires s != [] ==> Dist(s, u, c) != Dist(Front(s), u, c) + c.del
    requires t != [] ==> Dist(u, t, c) != Dist(u, Front(t), c) + c.ins
    ensures Dist(s, t, c) <= Dist(s, u, c) + Dist(u, t, c)
    decreases |s| + |u| + |t|, 0
  {
    hide Dist;
    var u' := Front(u);
    DistSteps(s, u, c);
    DistSteps(u, t, c);
    DistSteps(s, t, c);
    if Dist(s, u, c) == Dist(s, u', c) + c.ins {
      if Dist(u, t, c) == Dist(u', t, c) + c.del {
        Triangle(s, u', t, c);
      } else {
        Triangle(s, u', Front(t), c);
      }
    } else if Dist(u, t, c) == Dist(u', t, c) + c.del {
      Triangle(Front(s), u', t, c);
    } else {
      Triangle(Front(s), u', Front(t), c);
    }
  }

  /** Reading the edits backwards exchanges insertions and deletions. */
  lemma {:induction false} Symmetric(s: string, t: string, c: Costs)
    ensures Dist(s, t, c) == Dist(t, s, Costs(c.del, c.ins, c.sub))
    decreases |s| + |t|
  {
    if s != [] && t != [] {
      Symmetric(s, Front(t), c);
      Symmetric(Front(s), t, c);
      Symmetric(Front(s), Front(t), c);
    }
  }

  lemma {:induction false} NonNegativeDist(s: string, t: string, c: Costs)
    requires c.NonNegative()
    ensures 0 <= Dist(s, t, c)
    decreases |s| + |t|
  {
    if s == [] {
      assert 0 <= |t| * c.ins;
    } else if t == [] {
      assert 0 <= |s| * c.del;
    } else {
      NonNegativeDist(s, Front(t), c);
      NonNegativeDist(Front(s), t, c);
      NonNegativeDist(Front(s), Front(t), c);
    }
  }

  lemma {:induction false} SelfDistance(s: string, c: Costs)
    requires c.NonNegative()
    ensures Dist(s, s, c) == 0
  {
    NonNegativeDist(s, s, c);
    if s != [] { SelfDistance(Front(s), c); }
  }

  /** With positive costs, such as the (1, 1, 1) of `levenshtein`, only equal
      strings are at distance zero. */
  lemma {:induction false} ZeroIffEqual(s: string, t: string, c: Costs)
    requires c.ins > 0 && c.del > 0 && c.sub > 0
    ensures Dist(s, t, c) == 0 <==> s == t
    decreases |s|
  {
    SelfDistance(s, c);
    if s == [] {
      assert t != [] ==> |t| * c.ins > 0;
    } else if t == [] {
      assert |s| * c.del > 0;
    } else if s != t {
      NonNegativeDist(s, Front(t), c);
      NonNegativeDist(Front(s), t, c);
      NonNegativeDist(Front(s), Front(t), c);
      ZeroIffEqual(Front(s), Front(t), c);
      assert s == Front(s) + [Last(s)] && t == Front(t) + [Last(t)];
    }
  }

  // ------------------------------------------- chains of arbitrary edits

  /** A single edit at any position of a string. */
  datatype Edit = InsertAt(pos: nat, c: char) | DeleteAt(pos: nat) | ReplaceAt(pos: nat, c: char) {
    predicate Applies(s: string) {
      if InsertAt? then pos <= |s| else pos < |s|
    }

    function Apply(s: string): string
      requires Applies(s)
    {
      match this
      case InsertAt(_, _) => s[..pos] + [c] + s[pos..]
      case DeleteAt(_) => s[..pos] + s[pos + 1..]
      case ReplaceAt(_, _) => s[..pos] + [c] + s[pos + 1..]
    }

    function Price(c: Costs): int {
      match this
      case InsertAt(_, _) => c.ins
      case DeleteAt(_) => c.del
      case ReplaceAt(_, _) => c.sub
    }
  }

  /** The edits, done one after another in any order at any positions, lead from s to t. */
  ghost predicate Leads(es: seq<Edit>, s: string, t: string) {
    if es == [] then s == t
    else es[0].Applies(s) && Leads(es[1..], es[0].Apply(s), t)
  }

  ghost function ChainCost(es: seq<Edit>, c: Costs): int {
    if es == [] then 0 else es[0].Price(c) + ChainCost(es[1..], c)
  }

  lemma {:induction false} CommonTail(x: string, y: string, tail: string, c: Costs)
    ensures Dist(x + tail, y + tail, c) <= Dist(x, y, c)
    decreases |tail|
  {
    if tail == [] {
      assert x + tail == x && y + tail == y;
    } else {
      CommonTail(x, y, Front(tail), c);
      assert Front(x + tail) == x + Front(tail) && Front(y + tail) == y + Front(tail);
    }
  }

  lemma {:induction false} ChangeLast(head: string, x: char, y: char, c: Costs)
    requires c.NonNegative()
    ensures Dist(head, head + [y], c) <= c.ins
    ensures Dist(head + [x], head, c) <= c.del
    ensures Dist(head + [x], head + [y], c) <= c.sub
  {
    hide Dist;
    SelfDistance(head, c);
    assert Front(head + [x]) == head && Front(head + [y]) == head;
    DistSteps(head, head + [y], c);
    DistSteps(head + [x], head, c);
    DistSteps(head + [x], head + [y], c);
  }

  lemma {:induction false} OneEdit(e: Edit, s: string, c: Costs)
    requires c.NonNegative() && e.Applies(s)
    ensures Dist(s, e.Apply(s), c) <= e.Price(c)
  {
    hide Dist;
    var p := e.pos;
    var head := s[..p];
    match e
    case InsertAt(_, ch) =>
      ChangeLast(head, ch, ch, c);
      CommonTail(head, head + [ch], s[p..], c);
      assert head + s[p..] == s;
    case DeleteAt(_) =>
      ChangeLast(head, s[p], s[p], c);
      CommonTail(head + [s[p]], head, s[p + 1..], c);
      assert head + [s[p]] + s[p + 1..] == s;
    case ReplaceAt(_, ch) =>
      ChangeLast(head, s[p], ch, c);
      CommonTail(head + [s[p]], head + [ch], s[p + 1..], c);
      assert head + [s[p]] + s[p + 1..] == s;
  }

  lemma {:induction false} NoChainBeats(es: seq<Edit>, s: string, t: string, c: Costs)
    requires c.NonNegative() && Leads(es, s, t)
    ensures Dist(s, t, c) <= ChainCost(es, c)
  {
    if es == [] {
      SelfDistance(s, c);
    } else {
      var u := es[0].Apply(s);
      OneEdit(es[0], s, c);
      NoChainBeats(es[1..], u, t, c);
      Triangle(s, u, t, c);
    }
  }

  lemma {:induction false} Chained(es: seq<Edit>, fs: seq<Edit>, s: string, u: string, t: string, c: Costs)
    requires Leads(es, s, u) && Leads(fs, u, t)
    ensures Leads(es + fs, s, t) && ChainCost(es + fs, c) == ChainCost(es, c) + ChainCost(fs, c)
  {
    hide Edit.Apply, Edit.Price;
    if es == [] {
      assert es + fs == fs;
    } else {
      Chained(es[1..], fs, es[0].Apply(s), u, t, c);
      assert (es + fs)[0] == es[0] && (es + fs)[1..] == es[1..] + fs;
    }
  }

  lemma {:induction false} OneLeads(e: Edit, s: string, c: Costs)
    requires e.Applies(s)
    ensures Leads([e], s, e.Apply(s)) && ChainCost([e], c) == e.Price(c)
  {
    assert [e][1..] == [];
  }

  /** A chain that edits the front of a string does the same before any tail. */
  lemma {:induction false} LeadsBefore(es: seq<Edit>, s: string, t: string, tail: string)
    requires Leads(es, s, t)
    ensures Leads(es, s + tail, t + tail)
  {
    hide Edit.Apply, Edit.Applies;
    if es != [] {
      ApplyBefore(es[0], s, tail);
      LeadsBefore(es[1..], es[0].Apply(s), t, tail);
    }
  }

  lemma {:induction false} ApplyBefore(e: Edit, s: string, tail: string)
    requires e.Applies(s)
    ensures e.Applies(s + tail) && e.Apply(s + tail) == e.Apply(s) + tail
  {
    var n := e.pos;
    TakeFront(s, tail, n);
    if !e.InsertAt? {
      TakeFront(s, tail, n + 1);
    }
    match e
    case InsertAt(_, c) => Regrouped(s[..n] + [c], s[n..], tail);
    case DeleteAt(_) => Regrouped(s[..n], s[n + 1..], tail);
    case ReplaceAt(_, c) => Regrouped(s[..n] + [c], s[n + 1..], tail);
  }

  lemma {:induction false} TakeFront(s: string, tail: string, n: nat)
    requires n <= |s|
    ensures (s + tail)[..n] == s[..n] && (s + tail)[n..] == s[n..] + tail
  {
  }

  lemma {:induction false} Regrouped(a: string, b: string, c: string)
    ensures a + (b + c) == (a + b) + c
  {
  }

  /** Chains cost at most what the recurrence says. */
  lemma {:induction false} BestChain(s: string, t: string, c: Costs) returns (es: seq<Edit>)
    ensures Leads(es, s, t) && ChainCost(es, c) == Dist(s, t, c)
    decreases |s| + |t|
  {
    if s == [] && t == [] {
      es := [];
      return;
    }
    hide Dist, Leads, ChainCost;
    DistSteps(s, t, c);
    if t != [] && Dist(s, t, c) == Dist(s, Front(t), c) + c.ins {
      es := BestChain(s, Front(t), c);
      es := ThenInsert(es, s, t, c);
    } else if s != [] && Dist(s, t, c) == Dist(Front(s), t, c) + c.del {
      es := BestChain(Front(s), t, c);
      es := ThenDelete(es, s, t, c);
    } else {
      es := BestChain(Front(s), Front(t), c);
      es := ThenPut(es, s, t, c);
    }
  }

  lemma {:induction false} ThenInsert(es: seq<Edit>, s: string, t: string, c: Costs) returns (fs: seq<Edit>)
    requires t != [] && Leads(es, s, Front(t))
    ensures Leads(fs, s, t) && ChainCost(fs, c) == ChainCost(es, c) + c.ins
  {
    hide Leads, ChainCost;
    fs := Extend(es, s, Front(t), InsertAt(|t| - 1, Last(t)), t, c);
  }

  lemma {:induction false} ThenDelete(es: seq<Edit>, s: string, t: string, c: Costs) returns (fs: seq<Edit>)
    requires s != [] && Leads(es, Front(s), t)
    ensures Leads(fs, s, t) && ChainCost(fs, c) == ChainCost(es, c) + c.del
  {
    hide Leads, ChainCost;
    LeadsBefore(es, Front(s), t, [Last(s)]);
    assert Front(s) + [Last(s)] == s;
    fs := Extend(es, s, t + [Last(s)], DeleteAt(|t|), t, c);
  }

  lemma {:induction false} ThenPut(es: seq<Edit>, s: string, t: string, c: Costs) returns (fs: seq<Edit>)
    requires s != [] && t != [] && Leads(es, Front(s), Front(t))
    ensures Leads(fs, s, t) && ChainCost(fs, c) == ChainCost(es, c) + PutCost(Last(s), Last(t), c)
  {
    hide Leads, ChainCost;
    LeadsBefore(es, Front(s), Front(t), [Last(s)]);
    assert Front(s) + [Last(s)] == s && Front(t) + [Last(t)] == t;
    if Last(s) == Last(t) {
      fs := es;
    } else {
      fs := Extend(es, s, Front(t) + [Last(s)], ReplaceAt(|t| - 1, Last(t)), t, c);
    }
  }

  lemma {:induction false} Extend(es: seq<Edit>, s: string, mid: string, e: Edit, t: string, c: Costs)
    returns (fs: seq<Edit>)
    requires Leads(es, s, mid) && e.Applies(mid) && e.Apply(mid) == t
    ensures Leads(fs, s, t) && ChainCost(fs, c) == ChainCost(es, c) + e.Price(c)
  {
    fs := es + [e];
    OneLeads(e, mid, c);
    Chained(es, [e], s, mid, t, c);
  }

  /** What the function computes: the least total price of any chain of
      single-character edits leading from one string to the other. */
  lemma {:induction false} DistIsLeastChain(s: string, t: string, c: Costs)
    requires c.NonNegative()
    ensures exists es :: Leads(es, s, t) && ChainCost(es, c) == Dist(s, t, c)
    ensures forall es :: Leads(es, s, t) ==> Dist(s, t, c) <= ChainCost(es, c)
  {
    var best := BestChain(s, t, c);
    forall es | Leads(es, s, t) ensures Dist(s, t, c) <= ChainCost(es, c) {
      NoChainBeats(es, s, t, c);
    }
  }
}
