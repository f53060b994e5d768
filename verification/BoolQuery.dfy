/** Boolean queries of intarray: postfix arrays with back links to the left
    operand (`findoprnd`), their evaluation (`execute`) and the three leaf
    tests behind it. */
module BoolQuery {

  const NOT := '!' as int
  const AND := '&' as int
  const OR := '|' as int

  /** struct ITEM; type is VAL or OPR. */
  datatype Item = Item(isVal: bool, left: int, val: int)

  datatype Expr = Val(v: int) | Not(e: Expr) | And(l: Expr, r: Expr) | Or(l: Expr, r: Expr)

  function Size(e: Expr): (n: nat)
    ensures n > 0
  {
    match e
    case Val(_) => 1
    case Not(a) => Size(a) + 1
    case And(l, r) => Size(l) + Size(r) + 1
    case Or(l, r) => Size(l) + Size(r) + 1
  }

  /** What an int2 field holds after an assignment. */
  function Wrap16(x: int): int {
    (x + 0x8000) % 0x1_0000 - 0x8000
  }

  /** The query in postfix order, every operator carrying link(r) for its right
      operand r. */
  ghost function Items(e: Expr, link: int -> int): (q: seq<Item>)
    ensures |q| == Size(e)
    decreases e
  {
    match e
    case Val(v) => [Item(true, 0, v)]
    case Not(a) => Items(a, link) + [Item(false, -1, NOT)]
    case And(l, r) => Items(l, link) + Items(r, link) + [Item(false, link(Size(r)), AND)]
    case Or(l, r) => Items(l, link) + Items(r, link) + [Item(false, link(Size(r)), OR)]
  }

  /** The link that leads back over an operand of n items. */
  function Exact(n: int): int { -(n + 1) }

  /** The same, squeezed into an int2. */
  function Short(n: int): int { Wrap16(-(n + 1)) }

  ghost function Intended(e: Expr): (q: seq<Item>)
    ensures |q| == Size(e)
  {
    Items(e, Exact)
  }

  ghost function Stored(e: Expr): (q: seq<Item>)
    ensures |q| == Size(e)
  {
    Items(e, Short)
  }

  /** Every right operand is short enough for an int2 link to cross it. */
  predicate LinksFit(e: Expr) {
    match e
    case Val(_) => true
    case Not(a) => LinksFit(a)
    case And(l, r) => LinksFit(l) && LinksFit(r) && Size(r) < 0x8000
    case Or(l, r) => LinksFit(l) && LinksFit(r) && Size(r) < 0x8000
  }

  /** How 1&!2 is stored. */
  lemma {:induction false} StoredLook()
    ensures Stored(And(Val(1), Not(Val(2))))
         == [Item(true, 0, 1), Item(true, 0, 2), Item(false, -1, '!' as int), Item(false, -3, '&' as int)]
    ensures Stored(Or(Val(1), Val(2))) == [Item(true, 0, 1), Item(true, 0, 2), Item(false, -2, '|' as int)]
  {
    assert Stored(Val(2)) == [Item(true, 0, 2)];
    assert Stored(Not(Val(2))) == Stored(Val(2)) + [Item(false, -1, NOT)];
  }

  /** The stored links are the intended ones exactly when they fit. */
  lemma {:induction false} StoredIffFit(e: Expr)
    ensures Stored(e) == Intended(e) <==> LinksFit(e)
  {
    match e
    case Val(_) =>
    case Not(a) =>
      StoredIffFit(a);
      Snoc(Stored(a), Intended(a), Item(false, -1, NOT), Item(false, -1, NOT));
    case And(l, r) =>
      StoredIffFit(l);
      StoredIffFit(r);
      Split(Stored(l), Stored(r), Intended(l), Intended(r));
      Snoc(Stored(l) + Stored(r), Intended(l) + Intended(r),
           Item(false, Short(Size(r)), AND), Item(false, Exact(Size(r)), AND));
    case Or(l, r) =>
      StoredIffFit(l);
      StoredIffFit(r);
      Split(Stored(l), Stored(r), Intended(l), Intended(r));
      Snoc(Stored(l) + Stored(r), Intended(l) + Intended(r),
           Item(false, Short(Size(r)), OR), Item(false, Exact(Size(r)), OR));
  }

  lemma {:induction false} Snoc<T>(a: seq<T>, b: seq<T>, x: T, y: T)
    ensures a + [x] == b + [y] <==> a == b && x == y
  {
    if a + [x] == b + [y] {
      assert a == (a + [x])[..|a|] && b == (b + [y])[..|b|];
      assert (a + [x])[|a|] == (b + [y])[|b|];
    }
  }

  lemma {:induction false} Split<T>(a: seq<T>, b: seq<T>, c: seq<T>, d: seq<T>)
    requires |a| == |c|
    ensures a + b == c + d <==> a == c && b == d
  {
    if a + b == c + d {
      assert a == (a + b)[..|a|] && c == (c + d)[..|a|];
      assert b == (a + b)[|a|..] && d == (c + d)[|a|..];
    }
  }

  /** Equal but for the links. */
  ghost predicate SameSymbols(q: seq<Item>, s: seq<Item>) {
    |q| == |s| && forall i :: 0 <= i < |q| ==> q[i].isVal == s[i].isVal && q[i].val == s[i].val
  }

  lemma {:induction false} SymbolsSplit(q: seq<Item>, a: seq<Item>, b: seq<Item>)
    requires SameSymbols(q, a + b)
    ensures SameSymbols(q[..|a|], a) && SameSymbols(q[|a|..], b)
  {
    forall i | 0 <= i < |b| ensures q[|a|..][i].isVal == b[i].isVal && q[|a|..][i].val == b[i].val {
      assert q[|a| + i].isVal == (a + b)[|a| + i].isVal;
    }
  }

  /** The items q read as postfix, links aside, say e. */
  ghost predicate Spells(q: seq<Item>, e: Expr) {
    SameSymbols(q, Stored(e))
  }

  lemma {:induction false} SpellsUnary(q: seq<Item>, a: Expr)
    requires Spells(q, Not(a))
    ensures |q| > 0 && Spells(q[..|q| - 1], a) && !q[|q| - 1].isVal && q[|q| - 1].val == NOT
  {
    assert Stored(Not(a)) == Stored(a) + [Item(false, -1, NOT)];
    SymbolsSplit(q, Stored(a), [Item(false, -1, NOT)]);
    assert q[|q| - 1..][0] == q[|q| - 1];
  }

  lemma {:induction false} SpellsBinary(q: seq<Item>, e: Expr)
    requires Spells(q, e) && (e.And? || e.Or?)
    ensures |q| == Size(e.l) + Size(e.r) + 1
    ensures Spells(q[..Size(e.l)], e.l) && Spells(q[Size(e.l)..|q| - 1], e.r)
    ensures !q[|q| - 1].isVal && q[|q| - 1].val == if e.And? then AND else OR
  {
    var n := Size(e.l);
    var op := Item(false, Short(Size(e.r)), if e.And? then AND else OR);
    assert Stored(e) == Stored(e.l) + (Stored(e.r) + [op]);
    hide SameSymbols, Items, Size;
    SymbolsSplit(q, Stored(e.l), Stored(e.r) + [op]);
    SymbolsSplit(q[n..], Stored(e.r), [op]);
    assert q[n..][..Size(e.r)] == q[n..|q| - 1] && q[n..][Size(e.r)..] == q[|q| - 1..];
    OneSymbol(q[|q| - 1..], op);
  }

  lemma {:induction false} OneSymbol(q: seq<Item>, op: Item)
    requires SameSymbols(q, [op])
    ensures |q| == 1 && q[0].isVal == op.isVal && q[0].val == op.val
  {
  }

  // --------------------------------------------------------- findoprnd

  /** s with t written over it at lo. */
  ghost function Over<T>(s: seq<T>, lo: int, t: seq<T>): seq<T>
    requires 0 <= lo && lo + |t| <= |s|
  {
    s[..lo] + t + s[lo + |t|..]
  }

  lemma {:induction false} OverUnary<T>(s: seq<T>, lo: int, a: seq<T>, op: T)
    requires 0 <= lo && lo + |a| < |s|
    ensures Over(s[lo + |a| := op], lo, a) == Over(s, lo, a + [op])
  {
  }

  lemma {:induction false} OverBinary<T>(s: seq<T>, lo: int, l: seq<T>, r: seq<T>, op: T)
    requires 0 <= lo && lo + |l| + |r| < |s|
    ensures Over(Over(s, lo + |l|, r)[lo + |l| + |r| := op], lo, l) == Over(s, lo, l + r + [op])
    ensures Over(s, lo + |l|, r)[lo + |l| + |r| := op][lo..lo + |l|] == s[lo..lo + |l|]
  {
  }

  /** The operand of e that ends at pos. */
  ghost function Operand(s: seq<Item>, pos: int, e: Expr): seq<Item>
    requires 0 <= pos < |s| && Size(e) <= pos + 1
  {
    s[pos + 1 - Size(e)..pos + 1]
  }

  /** `findoprnd`: sets the links of the operand that ends at pos and returns
      the position before it.  Nothing else is touched. */
  method FindOprnd(ptr: array<Item>, pos: int, ghost e: Expr) returns (before: int)
    requires 0 <= pos < ptr.Length && Size(e) <= pos + 1 && Spells(Operand(ptr[..], pos, e), e)
    modifies ptr
    ensures before == pos - Size(e)
    ensures ptr[..] == Over(old(ptr[..]), before + 1, Stored(e))
    decreases e
  {
    hide SameSymbols, Over, Operand, Stored, Spells;
    ghost var s, lo := ptr[..], pos + 1 - Size(e);
    TopItem(s, pos, e);
    assert ptr[pos] == s[pos];
    if ptr[pos].isVal {
      ptr[pos] := ptr[pos].(left := 0);
      before := pos - 1;
      OverOne(s, pos, Item(true, 0, e.v));
    } else if ptr[pos].val == NOT {
      ptr[pos] := ptr[pos].(left := -1);
      UnaryOperand(s, ptr[..], pos, e.e);
      before := FindOprnd(ptr, pos - 1, e.e);
      OverUnary(s, lo, Stored(e.e), Item(false, -1, NOT));
    } else {
      BinaryOperands(s, pos, e);
      before := FindOprnd(ptr, pos - 1, e.r);
      ghost var op := Item(false, Short(Size(e.r)), if e.And? then AND else OR);
      OpUntouched(s, lo + Size(e.l), Stored(e.r), pos);
      ptr[pos] := ptr[pos].(left := Wrap16(before - pos));
      OverBinary(s, lo, Stored(e.l), Stored(e.r), op);
      assert ptr[..] == Over(s, lo + Size(e.l), Stored(e.r))[pos := op];
      LeftOperand(s, ptr[..], lo, e.l);
      before := FindOprnd(ptr, before, e.l);
    }
  }

  lemma {:induction false} TopItem(s: seq<Item>, pos: int, e: Expr)
    requires 0 <= pos < |s| && Size(e) <= pos + 1 && Spells(Operand(s, pos, e), e)
    ensures |Stored(e)| == Size(e)
    ensures s[pos].isVal == e.Val? && (e.Val? ==> s[pos].val == e.v && Stored(e) == [Item(true, 0, e.v)])
    ensures e.Not? ==> s[pos].val == NOT && Stored(e) == Stored(e.e) + [Item(false, -1, NOT)]
    ensures e.And? ==> s[pos].val == AND
    ensures e.Or? ==> s[pos].val == OR
    ensures e.And? || e.Or? ==>
      Stored(e) == Stored(e.l) + Stored(e.r) + [Item(false, Short(Size(e.r)), if e.And? then AND else OR)]
  {
    var q := Operand(s, pos, e);
    assert q[|q| - 1] == s[pos];
    match e
    case Val(v) => OneSymbol(q, Item(true, 0, v));
    case Not(a) => SpellsUnary(q, a);
    case _ => SpellsBinary(q, e);
  }

  lemma {:induction false} OverOne(s: seq<Item>, pos: int, x: Item)
    requires 0 <= pos < |s|
    ensures s[pos := x] == Over(s, pos, [x])
  {
  }

  lemma {:induction false} UnaryOperand(s: seq<Item>, s': seq<Item>, pos: int, a: Expr)
    requires 0 <= pos < |s| && Size(a) + 1 <= pos + 1 && Spells(Operand(s, pos, Not(a)), Not(a))
    requires |s'| == |s| && s'[..pos] == s[..pos]
    ensures Spells(Operand(s', pos - 1, a), a)
  {
    hide Spells;
    var q := Operand(s, pos, Not(a));
    SpellsUnary(q, a);
    assert |q| == Size(Not(a)) == Size(a) + 1;
    assert q[..|q| - 1] == s[..pos][pos - Size(a)..];
    assert Operand(s', pos - 1, a) == s'[..pos][pos - Size(a)..];
  }

  lemma {:induction false} BinaryOperands(s: seq<Item>, pos: int, e: Expr)
    requires 0 <= pos < |s| && Size(e) <= pos + 1 && Spells(Operand(s, pos, e), e) && (e.And? || e.Or?)
    ensures Spells(Operand(s, pos - 1, e.r), e.r)
    ensures Spells(Operand(s, pos - 1 - Size(e.r), e.l), e.l)
  {
    hide Spells;
    var q := Operand(s, pos, e);
    SpellsBinary(q, e);
    assert |q| == Size(e) == Size(e.l) + Size(e.r) + 1;
    var lo := pos + 1 - Size(e);
    SubSlice(s, lo, pos + 1, Size(e.l), |q| - 1);
    SubSlice(s, lo, pos + 1, 0, Size(e.l));
  }

  lemma {:induction false} SubSlice<T>(s: seq<T>, a: int, b: int, c: int, d: int)
    requires 0 <= a <= b <= |s| && 0 <= c <= d <= b - a
    ensures s[a..b][c..d] == s[a + c..a + d] && (c == 0 ==> s[a..b][..d] == s[a..a + d])
  {
    forall i | 0 <= i < d - c ensures s[a..b][c..d][i] == s[a + c..a + d][i] {
      assert s[a..b][c..d][i] == s[a..b][c + i] == s[a + c + i];
    }
  }

  lemma {:induction false} OpUntouched(s: seq<Item>, lo: int, r: seq<Item>, pos: int)
    requires 0 <= lo && pos == lo + |r| < |s|
    ensures Over(s, lo, r)[pos] == s[pos] && |Over(s, lo, r)| == |s|
  {
  }

  lemma {:induction false} LeftOperand(s: seq<Item>, s': seq<Item>, lo: int, l: Expr)
    requires 0 <= lo && lo + Size(l) <= |s| == |s'| && s'[lo..lo + Size(l)] == s[lo..lo + Size(l)]
    requires Spells(Operand(s, lo + Size(l) - 1, l), l)
    ensures Spells(Operand(s', lo + Size(l) - 1, l), l)
  {
    hide Spells;
  }

  // ------------------------------------------------------------ execute

  /** The meaning of a query, given the leaf test at every position; lo is
      where its first item stands. */
  ghost predicate Eval(e: Expr, lo: nat, leaf: (int, int) -> bool) {
    match e
    case Val(v) => leaf(lo, v)
    case Not(a) => !Eval(a, lo, leaf)
    case And(l, r) => Eval(l, lo, leaf) && Eval(r, lo + Size(l), leaf)
    case Or(l, r) => Eval(l, lo, leaf) || Eval(r, lo + Size(l), leaf)
  }

  /** `execute`, following the links.  Reads outside the query, which proper
      links never cause, count as false. */
  predicate Execute(q: seq<Item>, cur: int, calcnot: bool, chkcond: (int, int) -> bool)
    requires 0 <= cur < |q|
    decreases cur
  {
    var item := q[cur];
    if item.isVal then chkcond(cur, item.val)
    else if cur == 0 then false
    else if item.val == NOT then
      if calcnot then !Execute(q, cur - 1, calcnot, chkcond) else true
    else if !(0 <= cur + item.left < cur) then false
    else if item.val == AND then
      if Execute(q, cur + item.left, calcnot, chkcond) then Execute(q, cur - 1, calcnot, chkcond) else false
    else
      if Execute(q, cur + item.left, calcnot, chkcond) then true else Execute(q, cur - 1, calcnot, chkcond)
  }

  /** The items from lo on are e with proper links. */
  ghost predicate Linked(q: seq<Item>, lo: nat, e: Expr) {
    lo + Size(e) <= |q| && q[lo..lo + Size(e)] == Intended(e)
  }

  lemma {:induction false} LinkedTop(q: seq<Item>, lo: nat, e: Expr)
    requires Linked(q, lo, e)
    ensures var top := q[lo + Size(e) - 1];
      match e
      case Val(v) => Size(e) == 1 && top == Item(true, 0, v)
      case Not(a) => Size(e) == Size(a) + 1 && top == Item(false, -1, NOT) && Linked(q, lo, a)
      case And(l, r) => Size(e) == Size(l) + Size(r) + 1 && top == Item(false, -(Size(r) + 1), AND)
                        && Linked(q, lo, l) && Linked(q, lo + Size(l), r)
      case Or(l, r) => Size(e) == Size(l) + Size(r) + 1 && top == Item(false, -(Size(r) + 1), OR)
                       && Linked(q, lo, l) && Linked(q, lo + Size(l), r)
  {
    IntendedUnfold(e);
    hide Size, Items, Intended;
    match e
    case Val(v) => Parts(q, lo, [], [], Item(true, 0, v));
    case Not(a) => Parts(q, lo, Intended(a), [], Item(false, -1, NOT));
    case _ =>
      Parts(q, lo, Intended(e.l), Intended(e.r), Item(false, Exact(Size(e.r)), if e.And? then AND else OR));
  }

  lemma {:induction false} IntendedUnfold(e: Expr)
    ensures e.Val? ==> Size(e) == 1 && Intended(e) == [] + [] + [Item(true, 0, e.v)]
    ensures e.Not? ==> Size(e) == Size(e.e) + 1 && Intended(e) == Intended(e.e) + [] + [Item(false, -1, NOT)]
    ensures e.And? || e.Or? ==> Size(e) == Size(e.l) + Size(e.r) + 1
    ensures e.And? || e.Or? ==>
      Intended(e) == Intended(e.l) + Intended(e.r) + [Item(false, Exact(Size(e.r)), if e.And? then AND else OR)]
  {
    if e.Not? { assert Intended(e.e) + [] == Intended(e.e); }
  }

  lemma {:induction false} Parts<T>(q: seq<T>, lo: nat, x: seq<T>, y: seq<T>, op: T)
    requires lo + |x| + |y| + 1 <= |q| && q[lo..lo + |x| + |y| + 1] == x + y + [op]
    ensures q[lo..lo + |x|] == x && q[lo + |x|..lo + |x| + |y|] == y && q[lo + |x| + |y|] == op
  {
    var s := q[lo..lo + |x| + |y| + 1];
    SubSlice(q, lo, lo + |s|, 0, |x|);
    SubSlice(q, lo, lo + |s|, |x|, |x| + |y|);
    assert s[..|x|] == x && s[|x|..|x| + |y|] == y && s[|x| + |y|] == op;
  }

  /** With proper links, `execute` computes the meaning of the query. */
  lemma {:induction false} ExecuteIsEval(q: seq<Item>, lo: nat, e: Expr, leaf: (int, int) -> bool)
    requires Linked(q, lo, e)
    ensures Execute(q, lo + Size(e) - 1, true, leaf) == Eval(e, lo, leaf)
    decreases e
  {
    hide Linked, Size;
    LinkedTop(q, lo, e);
    match e
    case Val(_) =>
    case Not(a) => ExecuteIsEval(q, lo, a, leaf);
    case And(l, r) => ExecuteIsEval(q, lo, l, leaf); ExecuteIsEval(q, lo + Size(l), r, leaf);
    case Or(l, r) => ExecuteIsEval(q, lo, l, leaf); ExecuteIsEval(q, lo + Size(l), r, leaf);
  }

  /** The meaning of a query with every negation replaced by true. */
  ghost predicate LossyEval(e: Expr, lo: nat, leaf: (int, int) -> bool) {
    match e
    case Val(v) => leaf(lo, v)
    case Not(_) => true
    case And(l, r) => LossyEval(l, lo, leaf) && LossyEval(r, lo + Size(l), leaf)
    case Or(l, r) => LossyEval(l, lo, leaf) || LossyEval(r, lo + Size(l), leaf)
  }

  /** That is what `execute` computes without calcnot. */
  lemma {:induction false} ExecuteIsLossyEval(q: seq<Item>, lo: nat, e: Expr, leaf: (int, int) -> bool)
    requires Linked(q, lo, e)
    ensures Execute(q, lo + Size(e) - 1, false, leaf) == LossyEval(e, lo, leaf)
    decreases e
  {
    hide Linked, Size;
    LinkedTop(q, lo, e);
    match e
    case Val(_) =>
    case Not(_) =>
    case And(l, r) => ExecuteIsLossyEval(q, lo, l, leaf); ExecuteIsLossyEval(q, lo + Size(l), r, leaf);
    case Or(l, r) => ExecuteIsLossyEval(q, lo, l, leaf); ExecuteIsLossyEval(q, lo + Size(l), r, leaf);
  }

  predicate Negates(e: Expr) {
    match e
    case Val(_) => false
    case Not(_) => true
    case And(l, r) => Negates(l) || Negates(r)
    case Or(l, r) => Negates(l) || Negates(r)
  }

  /** Where nothing is negated nothing is lost. */
  lemma {:induction false} LossyIsExact(e: Expr, lo: nat, leaf: (int, int) -> bool)
    requires !Negates(e)
    ensures LossyEval(e, lo, leaf) == Eval(e, lo, leaf)
  {
    hide Size;
    if e.And? || e.Or? {
      LossyIsExact(e.l, lo, leaf);
      LossyIsExact(e.r, lo + Size(e.l), leaf);
    }
  }

  /** Negation taken for true, and leaves that err only towards true, cannot
      turn a match into a mismatch. */
  lemma {:induction false} LossyExecute(
    items: seq<Item>, cur: int, exact: (int, int) -> bool, weak: (int, int) -> bool)
    requires 0 <= cur < |items| && forall i, v :: exact(i, v) ==> weak(i, v)
    ensures Execute(items, cur, true, exact) ==> Execute(items, cur, false, weak)
    decreases cur
  {
    var item := items[cur];
    if !item.isVal && cur > 0 && item.val != NOT && 0 <= cur + item.left < cur {
      LossyExecute(items, cur - 1, exact, weak);
      LossyExecute(items, cur + item.left, exact, weak);
    }
  }

  lemma {:induction false} SameExecute(
    items: seq<Item>, cur: int, f: (int, int) -> bool, g: (int, int) -> bool)
    requires 0 <= cur < |items| && forall i, v :: f(i, v) == g(i, v)
    ensures Execute(items, cur, true, f) == Execute(items, cur, true, g)
    decreases cur
  {
    var item := items[cur];
    if !item.isVal && cur > 0 {
      SameExecute(items, cur - 1, f, g);
      if 0 <= cur + item.left < cur {
        SameExecute(items, cur + item.left, f, g);
      }
    }
  }

  /** So the lossy reading of a query never rejects what the query accepts. */
  lemma {:induction false} LossyIsSafe(
    q: seq<Item>, lo: nat, e: Expr, exact: (int, int) -> bool, weak: (int, int) -> bool)
    requires Linked(q, lo, e)
    requires forall i, v :: exact(i, v) ==> weak(i, v)
    ensures Eval(e, lo, exact) ==> Execute(q, lo + Size(e) - 1, false, weak)
  {
    ExecuteIsEval(q, lo, e, exact);
    SizePositive(e);
    LossyExecute(q, lo + Size(e) - 1, exact, weak);
  }

  /** `bqarr_in` ends with this call: the array it stores is linked as intended,
      and so executable, exactly when every right operand fits an int2 link. */
  method LinkQuery(ptr: array<Item>, ghost e: Expr)
    requires ptr.Length == Size(e) && Spells(ptr[..], e)
    modifies ptr
    ensures ptr[..] == Stored(e)
    ensures Linked(ptr[..], 0, e) <==> LinksFit(e)
  {
    hide Spells, Stored, Intended, Size, Over, Operand, Linked, LinksFit;
    SizePositive(e);
    WholeOperand(ptr[..], e);
    var pos := ptr.Length - 1;
    ghost var s := ptr[..];
    pos := FindOprnd(ptr, pos, e);
    OverAll(s, Stored(e));
    StoredLinked(e);
  }

  lemma {:induction false} WholeOperand(s: seq<Item>, e: Expr)
    requires |s| == Size(e) > 0
    ensures Operand(s, |s| - 1, e) == s
  {
  }

  lemma {:induction false} OverAll<T>(s: seq<T>, t: seq<T>)
    requires |s| == |t|
    ensures Over(s, 0, t) == t
  {
  }

  lemma {:induction false} StoredLinked(e: Expr)
    ensures Linked(Stored(e), 0, e) <==> LinksFit(e)
  {
    StoredIffFit(e);
    assert Stored(e)[0..Size(e)] == Stored(e);
  }

  /** 2 & 2 & ... & 2, n times. */
  ghost function Twos(n: nat): Expr
    requires n > 0
  {
    if n == 1 then Val(2) else And(Twos(n - 1), Val(2))
  }

  lemma {:induction false} TwosFail(n: nat, lo: nat, leaf: (int, int) -> bool)
    requires n > 0 && forall i :: !leaf(i, 2)
    ensures Size(Twos(n)) == 2 * n - 1 && LinksFit(Twos(n)) && !Eval(Twos(n), lo, leaf)
  {
    if n > 1 {
      TwosFail(n - 1, lo, leaf);
    }
  }

  /** 1 | (2 & ... & 2 & !2), with 65536 items in the parentheses: the stored link
      leads into the right operand, and an array that holds 1 does not match. */
  lemma {:induction false} WrongOperand(e: Expr, leaf: (int, int) -> bool)
    requires e == Or(Val(1), And(Twos(32767), Not(Val(2))))
    requires forall i, v :: leaf(i, v) <==> v == 1
    ensures Eval(e, 0, leaf) && !Execute(Stored(e), Size(e) - 1, true, leaf)
  {
    var q, r := Stored(e), e.r;
    LongOperand(r, leaf);
    assert Size(e) == 65538;
    hide Twos, Items, Linked, Stored, Size, LinksFit, Intended;
    StoredIffFit(r);
    var op := Item(false, -1, OR);
    StoredOr(e, op);
    Parts(q, 0, [Item(true, 0, 1)], Stored(r), op);
    OperandLinked(q, r);
    ExecuteIsEval(q, 1, r, leaf);
  }

  lemma {:induction false} LongOperand(r: Expr, leaf: (int, int) -> bool)
    requires r == And(Twos(32767), Not(Val(2))) && forall i, v :: leaf(i, v) <==> v == 1
    ensures Size(r) == 65536 && LinksFit(r) && !Eval(r, 1, leaf)
  {
    hide Twos;
    TwosFail(32767, 1, leaf);
  }

  lemma {:induction false} StoredOr(e: Expr, op: Item)
    requires e.Or? && e.l == Val(1) && op == Item(false, Short(Size(e.r)), OR)
    ensures Stored(e) == [Item(true, 0, 1)] + Stored(e.r) + [op]
    ensures Stored(e)[0..|Stored(e)|] == Stored(e)
  {
    assert Stored(Val(1)) == [Item(true, 0, 1)];
    assert Stored(e) == Stored(e.l) + Stored(e.r) + [op];
  }

  lemma {:induction false} OperandLinked(q: seq<Item>, r: Expr)
    requires 1 + Size(r) <= |q| && q[1..1 + Size(r)] == Intended(r)
    ensures Linked(q, 1, r)
  {
  }

  lemma {:induction false} SizePositive(e: Expr)
    ensures Size(e) > 0
  {
  }

  // ---------------------------------------------------------- leaf tests

  /** `checkcondition_arr`: binary search in a sorted array. */
  method CheckConditionArr(arr: seq<int>, val: int) returns (found: bool)
    requires forall i, j :: 0 <= i < j < |arr| ==> arr[i] < arr[j]
    ensures found <==> val in arr
  {
    var stopLow, stopHigh := 0, |arr|;
    while stopLow < stopHigh
      invariant 0 <= stopLow <= stopHigh <= |arr|
      invariant forall i :: 0 <= i < stopLow ==> arr[i] < val
      invariant forall i :: stopHigh <= i < |arr| ==> arr[i] > val
    {
      var stopMiddle := stopLow + (stopHigh - stopLow) / 2;
      if arr[stopMiddle] == val {
        return true;
      } else if arr[stopMiddle] < val {
        stopLow := stopMiddle + 1;
      } else {
        stopHigh := stopMiddle;
      }
    }
    return false;
  }

  ghost predicate Member(arr: seq<int>, v: int) { v in arr }

  /** How many leaves stand before position i. */
  ghost function Leaves(q: seq<Item>, i: nat): nat
    requires i <= |q|
  {
    if i == 0 then 0 else Leaves(q, i - 1) + if q[i - 1].isVal then 1 else 0
  }

  /** The flags say, leaf by leaf, which values the array holds. */
  ghost predicate ExactFlags(q: seq<Item>, check: seq<bool>, arr: seq<int>) {
    Leaves(q, |q|) <= |check|
    && forall i :: 0 <= i < |q| && q[i].isVal ==> Leaves(q, i) < |check| && check[Leaves(q, i)] == Member(arr, q[i].val)
  }

  /** `ginconsistent`: spreads the flags over the items and executes exactly. */
  method GinConsistent(q: seq<Item>, check: seq<bool>, ghost e: Expr, ghost arr: seq<int>) returns (r: bool)
    requires |q| == Size(e) && Linked(q, 0, e) && ExactFlags(q, check, arr)
    ensures r == Eval(e, 0, (i, v) => Member(arr, v))
  {
    hide Linked, Size, Eval;
    SizePositive(e);
    var mapped: seq<bool> := [];
    var j := 0;
    for i := 0 to |q|
      invariant |mapped| == i && j == Leaves(q, i)
      invariant forall k :: 0 <= k < i && q[k].isVal ==> mapped[k] == Member(arr, q[k].val)
    {
      if q[i].isVal {
        mapped := mapped + [check[j]];
        j := j + 1;
      } else {
        mapped := mapped + [false];
      }
    }
    var chk := (i: int, v: int) => 0 <= i < |mapped| && mapped[i];
    r := Execute(q, |q| - 1, true, chk);
    ExecuteIsEval(q, 0, e, chk);
    assert Eval(e, 0, chk) == Eval(e, 0, (i, v) => Member(arr, v)) by {
      SameLeaves(q, 0, e, chk, (i, v) => Member(arr, v));
    }
  }

  /** Leaf tests that agree on the leaves of the query give it the same meaning. */
  lemma {:induction false} SameLeaves(q: seq<Item>, lo: nat, e: Expr, f: (int, int) -> bool, g: (int, int) -> bool)
    requires Linked(q, lo, e)
    requires forall i :: 0 <= i < |q| && q[i].isVal ==> f(i, q[i].val) == g(i, q[i].val)
    ensures Eval(e, lo, f) == Eval(e, lo, g)
    decreases e
  {
    LinkedTop(q, lo, e);
    hide Linked, Size;
    match e
    case Val(_) => assert q[lo].isVal by { OneItem(q, lo, e); }
    case Not(a) => SameLeaves(q, lo, a, f, g);
    case And(l, r) => SameLeaves(q, lo, l, f, g); SameLeaves(q, lo + Size(l), r, f, g);
    case Or(l, r) => SameLeaves(q, lo, l, f, g); SameLeaves(q, lo + Size(l), r, f, g);
  }

  lemma {:induction false} OneItem(q: seq<Item>, lo: nat, e: Expr)
    requires Linked(q, lo, e) && e.Val?
    ensures lo < |q| && q[lo] == Item(true, 0, e.v)
  {
    LinkedTop(q, lo, e);
  }
}
