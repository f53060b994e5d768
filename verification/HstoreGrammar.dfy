/** The language of hstore texts, given by a grammar, and the proof that
    `hstore_in` accepts exactly its sentences and reads them as the grammar says. */
module HstoreGrammar {
  import opened Common
  import opened HstorePairs
  import opened HstoreText

  // ---------------------------------------------------------------- words

  /** A character of a word, as it stands or behind a backslash. */
  datatype Unit = Plain(c: char) | Escaped(c: char)

  /** A word without quotes or between them. */
  datatype Word = Bare(units: seq<Unit>) | Quoted(units: seq<Unit>)

  function UnitText(u: Unit): string {
    if u.Plain? then [u.c] else ['\\', u.c]
  }

  function Spelled(us: seq<Unit>): string {
    if us == [] then "" else UnitText(us[0]) + Spelled(us[1..])
  }

  /** The characters meant. */
  function Meant(us: seq<Unit>): string {
    if us == [] then "" else [us[0].c] + Meant(us[1..])
  }

  function WordText(w: Word): string {
    match w
    case Bare(us) => Spelled(us)
    case Quoted(us) => "\"" + Spelled(us) + "\""
  }

  predicate InQuotes(u: Unit) {
    u.c != '\0' && (u.Plain? ==> u.c != '\\' && u.c != '"')
  }

  /** A key ends at an equals sign, a value at a comma; both end at a space. */
  predicate Ends(c: char, value: bool) {
    IsSpace(c) || c == if value then ',' else '='
  }

  predicate InBare(u: Unit, value: bool) {
    u.c != '\0' && (u.Plain? ==> u.c != '\\' && !Ends(u.c, value))
  }

  /** A bare word does not begin with a quote; but a value may begin with a comma. */
  predicate StartsBare(u: Unit, value: bool) {
    u.c != '\0' && (u.Plain? ==> u.c != '\\' && u.c != '"' && !IsSpace(u.c) && (u.c == '=' ==> value))
  }

  ghost predicate AllInBare(us: seq<Unit>, value: bool) {
    forall i :: 0 <= i < |us| ==> InBare(us[i], value)
  }

  ghost predicate AllInQuotes(us: seq<Unit>) {
    forall i :: 0 <= i < |us| ==> InQuotes(us[i])
  }

  ghost predicate IsWord(w: Word, value: bool) {
    match w
    case Bare(us) => us != [] && StartsBare(us[0], value) && AllInBare(us[1..], value)
    case Quoted(us) => AllInQuotes(us)
  }

  ghost predicate Blank(t: string) {
    forall i :: 0 <= i < |t| ==> IsSpace(t[i])
  }

  // ---------------------------------------------------------------- texts

  /** One pair with the spaces around its parts. */
  datatype Entry = Entry(b1: string, key: Word, b2: string, b3: string, val: Word, b4: string)

  /** A text: pairs with commas between them.  A comma may follow the last one. */
  datatype Text = Nothing(b: string) | Last(e: Entry) | More(e: Entry, rest: Text)

  function EntryText(e: Entry): string {
    e.b1 + (WordText(e.key) + (e.b2 + ("=>" + (e.b3 + (WordText(e.val) + e.b4)))))
  }

  function Render(t: Text): string {
    match t
    case Nothing(b) => b
    case Last(e) => EntryText(e)
    case More(e, rest) => EntryText(e) + "," + Render(rest)
  }

  ghost predicate IsEntry(e: Entry) {
    Blank(e.b1) && Blank(e.b2) && Blank(e.b3) && Blank(e.b4) && IsWord(e.key, false) && IsWord(e.val, true)
    && |Meant(e.key.units)| <= MAX_WORD && |Meant(e.val.units)| <= MAX_WORD
  }

  ghost predicate IsText(t: Text) {
    match t
    case Nothing(b) => Blank(b)
    case Last(e) => IsEntry(e)
    case More(e, rest) => IsEntry(e) && IsText(rest)
  }

  /** ASCII capitals made small. */
  function Lower(w: string): (l: string)
    ensures |l| == |w|
  {
    if w == "" then "" else [LowerChar(w[0])] + Lower(w[1..])
  }

  function LowerChar(c: char): char {
    if 65 <= c as int <= 90 then (c as int + 32) as char else c
  }

  /** A bare word that is null but for capitals stands for no value. */
  function EntryPair(e: Entry): Pairs {
    Pairs(Meant(e.key.units), Meant(e.val.units), Lower(Meant(e.val.units)) == "null" && e.val.Bare?, true)
  }

  lemma {:induction false} SpellsNullIff(w: string)
    ensures SpellsNull(w) <==> Lower(w) == "null"
  {
    if |w| == 4 {
      assert Lower(w) == [LowerChar(w[0]), LowerChar(w[1]), LowerChar(w[2]), LowerChar(w[3])] by {
        LowerAt(w, 0);
        LowerAt(w, 1);
        LowerAt(w, 2);
        LowerAt(w, 3);
      }
    }
  }

  lemma {:induction false} LowerAt(w: string, i: nat)
    requires i < |w|
    ensures Lower(w)[i] == LowerChar(w[i])
  {
    if i > 0 {
      LowerAt(w[1..], i - 1);
    }
  }

  /** Tab, line feed, vertical tab, form feed, carriage return and space. */
  lemma {:induction false} IsSpaceIff(c: char)
    ensures IsSpace(c) <==> 9 <= c as int <= 13 || c as int == 32
  {
  }

  function TextPairs(t: Text): seq<Pairs> {
    match t
    case Nothing(_) => []
    case Last(e) => [EntryPair(e)]
    case More(e, rest) => [EntryPair(e)] + TextPairs(rest)
  }

  // ------------------------------------------------ what the scanner finds

  lemma {:induction false} AddUnit(u: Unit, us: seq<Unit>, s: string, p: nat, q: nat)
    requires p + |UnitText(u)| <= q <= |s| && s[p..p + |UnitText(u)|] == UnitText(u)
    requires Spelled(us) == s[p + |UnitText(u)|..q]
    ensures Spelled([u] + us) == s[p..q] && Meant([u] + us) == [u.c] + Meant(us)
  {
    assert ([u] + us)[1..] == us;
    assert s[p..q] == s[p..p + |UnitText(u)|] + s[p + |UnitText(u)|..q];
  }

  /** Where a bare word stops. */
  predicate Stops(s: string, q: nat, value: bool) {
    q == |s| || (q < |s| && Ends(s[q], value))
  }

  /** The scanner stands before the character that follows, or on it if it is a
      space. */
  function Rests(s: string, q: nat): int {
    if q < |s| && IsSpace(s[q]) then q else q - 1
  }

  lemma {:induction false} BareFrom(s: string, p: nat, word: string, value: bool) returns (us: seq<Unit>, q: nat)
    requires p <= |s| && NoNul(s) && ScanVal(s, p, InVal, word, false, value).Got?
    ensures p <= q <= |s| && Spelled(us) == s[p..q] && AllInBare(us, value) && Stops(s, q, value)
    ensures ScanVal(s, p, InVal, word, false, value) == Got(Rests(s, q), word + Meant(us), false)
    decreases |s| - p
  {
    hide ScanVal, IsSpace, Spelled, Meant, InBare, Rests, UnitText;
    if p == |s| || Ends(s[p], value) {
      us, q := [], p;
      EmptyWord(s, p, word);
      BareStops(s, p, word, value);
    } else {
      var u := BareNext(s, p, word, value);
      var us', q' := BareFrom(s, p + |UnitText(u)|, word + [u.c], value);
      AddUnit(u, us', s, p, q');
      us, q := [u] + us', q';
      assert word + [u.c] + Meant(us') == word + Meant(us);
    }
  }

  /** A bare word goes on with a unit of the grammar. */
  lemma {:induction false} BareNext(s: string, p: nat, word: string, value: bool) returns (u: Unit)
    requires p < |s| && NoNul(s) && ScanVal(s, p, InVal, word, false, value).Got? && !Ends(s[p], value)
    ensures InBare(u, value) && p < p + |UnitText(u)| <= |s| && s[p..p + |UnitText(u)|] == UnitText(u)
    ensures ScanVal(s, p, InVal, word, false, value)
         == ScanVal(s, p + |UnitText(u)|, InVal, word + [u.c], false, value)
  {
    hide IsSpace;
    NotSpaces();
    u := if At(s, p) == '\\' then Escaped(At(s, p + 1)) else Plain(At(s, p));
    UnitAt(s, p, u);
  }

  lemma {:induction false} QuotedNext(s: string, p: nat, word: string, value: bool) returns (u: Unit)
    requires p <= |s| && NoNul(s) && ScanVal(s, p, InEscVal, word, true, value).Got? && At(s, p) != '"'
    ensures InQuotes(u) && p < p + |UnitText(u)| <= |s| && s[p..p + |UnitText(u)|] == UnitText(u)
    ensures ScanVal(s, p, InEscVal, word, true, value)
         == ScanVal(s, p + |UnitText(u)|, InEscVal, word + [u.c], true, value)
  {
    hide IsSpace;
    u := if At(s, p) == '\\' then Escaped(At(s, p + 1)) else Plain(At(s, p));
    UnitAt(s, p, u);
  }

  lemma {:induction false} QuotedStops(s: string, p: nat, word: string, value: bool)
    requires p < |s| && s[p] == '"'
    ensures ScanVal(s, p, InEscVal, word, true, value) == Got(p, word, true)
  {
  }

  lemma {:induction false} NotSpaces()
    ensures !IsSpace('\\') && !IsSpace('"') && !IsSpace('=') && !IsSpace(',') && !IsSpace('\0')
  {
  }

  lemma {:induction false} UnitAt(s: string, p: nat, u: Unit)
    requires p < |s| && u == if At(s, p) == '\\' then Escaped(At(s, p + 1)) else Plain(At(s, p))
    ensures u.c != '\0' ==> p + |UnitText(u)| <= |s| && s[p..p + |UnitText(u)|] == UnitText(u)
  {
  }

  lemma {:induction false} EmptyWord(s: string, p: nat, word: string)
    requires p <= |s|
    ensures Spelled([]) == s[p..p] && word + Meant([]) == word
  {
  }

  lemma {:induction false} QuotedFrom(s: string, p: nat, word: string, value: bool) returns (us: seq<Unit>, q: nat)
    requires p <= |s| && NoNul(s) && ScanVal(s, p, InEscVal, word, true, value).Got?
    ensures p <= q < |s| && Spelled(us) == s[p..q] && AllInQuotes(us) && s[q] == '"'
    ensures ScanVal(s, p, InEscVal, word, true, value) == Got(q, word + Meant(us), true)
    decreases |s| - p
  {
    hide ScanVal, IsSpace, Spelled, Meant, InQuotes, UnitText;
    if p < |s| && s[p] == '"' {
      us, q := [], p;
      EmptyWord(s, p, word);
      QuotedStops(s, p, word, value);
    } else {
      var u := QuotedNext(s, p, word, value);
      var us', q' := QuotedFrom(s, p + |UnitText(u)|, word + [u.c], value);
      AddUnit(u, us', s, p, q');
      us, q := [u] + us', q';
      assert word + [u.c] + Meant(us') == word + Meant(us);
    }
  }

  /** Where the spaces from p on end. */
  function SkipBlank(s: string, p: nat): (i: nat)
    requires p <= |s|
    ensures p <= i <= |s| && Blank(s[p..i]) && (i < |s| ==> !IsSpace(s[i]))
    decreases |s| - p
  {
    if p < |s| && IsSpace(s[p]) then
      assert s[p..SkipBlank(s, p + 1)] == [s[p]] + s[p + 1..SkipBlank(s, p + 1)];
      SkipBlank(s, p + 1)
    else p
  }

  lemma {:induction false} SkipScan(s: string, p: nat, value: bool)
    requires p <= |s|
    ensures ScanVal(s, p, WaitVal, "", false, value) == ScanVal(s, SkipBlank(s, p), WaitVal, "", false, value)
    decreases |s| - p
  {
    if p < |s| && IsSpace(s[p]) {
      SkipScan(s, p + 1, value);
    }
  }

  /** The word w stands in s from i to q, where it stops. */
  ghost predicate WordAt(s: string, i: nat, q: nat, w: Word, value: bool) {
    i < q <= |s| && s[i..q] == WordText(w) && IsWord(w, value) && (w.Bare? ==> Stops(s, q, value))
    && |Meant(w.units)| <= MAX_WORD
  }

  function WordRests(s: string, q: nat, w: Word): int {
    if w.Bare? then Rests(s, q) else q - 1
  }

  /** A word that `get_val` returns is one of the grammar. */
  lemma {:induction false} WordFound(s: string, p: nat, value: bool) returns (i: nat, q: nat, w: Word)
    requires p <= |s| && NoNul(s) && ScanVal(s, p, WaitVal, "", false, value).Got?
    ensures i == SkipBlank(s, p) && i < |s| && WordAt(s, i, q, w, value)
    ensures ScanVal(s, p, WaitVal, "", false, value) == Got(WordRests(s, q, w), Meant(w.units), w.Quoted?)
  {
    hide ScanVal, IsSpace, Spelled, Meant, SkipBlank, Blank, WordAt, WordRests;
    SkipScan(s, p, value);
    i := SkipBlank(s, p);
    WordStart(s, i, value);
    if s[i] == '"' {
      q, w := QuotedFound(s, i, value);
    } else {
      q, w := BareFound(s, i, value);
    }
  }

  lemma {:induction false} WordStart(s: string, i: nat, value: bool)
    requires i <= |s| && ScanVal(s, i, WaitVal, "", false, value).Got?
    ensures i < |s|
  {
  }

  lemma {:induction false} QuotedFound(s: string, i: nat, value: bool) returns (q: nat, w: Word)
    requires i < |s| && NoNul(s) && ScanVal(s, i, WaitVal, "", false, value).Got? && s[i] == '"'
    ensures WordAt(s, i, q, w, value)
    ensures ScanVal(s, i, WaitVal, "", false, value) == Got(WordRests(s, q, w), Meant(w.units), w.Quoted?)
  {
    hide IsSpace, Spelled, Meant;
    WordShort(s, i, WaitVal, "", false, value);
    var us, e := QuotedFrom(s, i + 1, "", value);
    q, w := e + 1, Quoted(us);
    assert s[i..q] == "\"" + s[i + 1..e] + "\"";
    assert "" + Meant(us) == Meant(us);
  }

  lemma {:induction false} BareFound(s: string, i: nat, value: bool) returns (q: nat, w: Word)
    requires i < |s| && NoNul(s) && ScanVal(s, i, WaitVal, "", false, value).Got? && s[i] != '"' && !IsSpace(s[i])
    ensures WordAt(s, i, q, w, value)
    ensures ScanVal(s, i, WaitVal, "", false, value) == Got(WordRests(s, q, w), Meant(w.units), w.Quoted?)
  {
    hide ScanVal, IsSpace, Spelled, Meant, StartsBare, UnitText;
    WordShort(s, i, WaitVal, "", false, value);
    var u := BareFirst(s, i, value);
    var us, e := BareFrom(s, i + |UnitText(u)|, [u.c], value);
    AddUnit(u, us, s, i, e);
    q, w := e, Bare([u] + us);
    assert ([u] + us)[1..] == us;
  }

  lemma {:induction false} BareFirst(s: string, i: nat, value: bool) returns (u: Unit)
    requires i < |s| && NoNul(s) && ScanVal(s, i, WaitVal, "", false, value).Got? && s[i] != '"' && !IsSpace(s[i])
    ensures StartsBare(u, value) && i < i + |UnitText(u)| <= |s| && s[i..i + |UnitText(u)|] == UnitText(u)
    ensures ScanVal(s, i, WaitVal, "", false, value)
         == ScanVal(s, i + |UnitText(u)|, InVal, [u.c], false, value)
  {
    hide IsSpace;
    NotSpaces();
    u := if s[i] == '\\' then Escaped(At(s, i + 1)) else Plain(s[i]);
    UnitAt(s, i, u);
    assert "" + [u.c] == [u.c];
  }

  /** Conversely `get_val` returns any word of the grammar that stands there. */
  lemma {:induction false} WordScanned(s: string, p: nat, i: nat, q: nat, w: Word, value: bool)
    requires p <= |s| && i == SkipBlank(s, p) && WordAt(s, i, q, w, value)
    ensures ScanVal(s, p, WaitVal, "", false, value) == Got(WordRests(s, q, w), Meant(w.units), w.Quoted?)
  {
    hide ScanVal, IsSpace, Spelled, Meant, SkipBlank, Blank, WordAt, WordRests;
    SkipScan(s, p, value);
    if w.Quoted? {
      QuotedWordScanned(s, i, q, w, value);
    } else {
      BareWordScanned(s, i, q, w, value);
    }
  }

  lemma {:induction false} QuotedWordScanned(s: string, i: nat, q: nat, w: Word, value: bool)
    requires WordAt(s, i, q, w, value) && w.Quoted?
    ensures ScanVal(s, i, WaitVal, "", false, value) == Got(WordRests(s, q, w), Meant(w.units), w.Quoted?)
  {
    hide IsSpace, Spelled, Meant, AllInQuotes;
    Unquote(s, i, q, Spelled(w.units));
    QuotedScanned(s, i + 1, q - 1, w.units, "", value);
    assert "" + Meant(w.units) == Meant(w.units);
  }

  lemma {:induction false} BareWordScanned(s: string, i: nat, q: nat, w: Word, value: bool)
    requires WordAt(s, i, q, w, value) && w.Bare?
    ensures ScanVal(s, i, WaitVal, "", false, value) == Got(WordRests(s, q, w), Meant(w.units), w.Quoted?)
  {
    hide IsSpace, Spelled, Meant, AllInBare;
    NotSpaces();
    var u := w.units[0];
    TakeUnit(s, i, q, w.units);
    assert "" + [u.c] == [u.c];
    BareScanned(s, i + |UnitText(u)|, q, w.units[1..], [u.c], value);
  }

  lemma {:induction false} Unquote(s: string, i: nat, q: nat, t: string)
    requires i <= q <= |s| && s[i..q] == "\"" + t + "\""
    ensures i + 2 <= q && s[i] == '"' && s[q - 1] == '"' && s[i + 1..q - 1] == t
  {
    var u := s[i..q];
    assert u[0] == s[i] && u[|u| - 1] == s[q - 1];
    assert u[1..|u| - 1] == t;
    forall k | 0 <= k < |t| ensures s[i + 1 + k] == t[k] {
      assert u[1 + k] == t[k];
    }
  }

  lemma {:induction false} TakeUnit(s: string, p: nat, q: nat, us: seq<Unit>)
    requires p <= q <= |s| && s[p..q] == Spelled(us) && us != []
    ensures var u := us[0];
      && p + |UnitText(u)| <= q && s[p..p + |UnitText(u)|] == UnitText(u)
      && s[p + |UnitText(u)|..q] == Spelled(us[1..]) && Meant(us) == [u.c] + Meant(us[1..])
      && s[p] == UnitText(u)[0] && (u.Escaped? ==> s[p + 1] == u.c)
  {
    var n := |UnitText(us[0])|;
    var t := s[p..q];
    assert t[..n] == UnitText(us[0]) && t[n..] == Spelled(us[1..]);
    assert s[p..p + n] == t[..n] && s[p + n..q] == t[n..];
    assert s[p] == t[0];
    if n == 2 {
      assert s[p + 1] == t[1];
    }
  }

  lemma {:induction false} BareStops(s: string, q: nat, word: string, value: bool)
    requires q <= |s| && Stops(s, q, value)
    ensures ScanVal(s, q, InVal, word, false, value) == Got(Rests(s, q), word, false)
  {
    hide IsSpace;
    NotSpaces();
  }

  lemma {:induction false} BareStep(s: string, p: nat, u: Unit, word: string, value: bool)
    requires p + |UnitText(u)| <= |s| && s[p] == UnitText(u)[0] && (u.Escaped? ==> s[p + 1] == u.c)
    requires InBare(u, value) && |word| < MAX_WORD
    ensures ScanVal(s, p, InVal, word, false, value)
         == ScanVal(s, p + |UnitText(u)|, InVal, word + [u.c], false, value)
  {
    hide IsSpace;
    NotSpaces();
  }

  lemma {:induction false} QuotedStep(s: string, p: nat, u: Unit, word: string, value: bool)
    requires p + |UnitText(u)| <= |s| && s[p] == UnitText(u)[0] && (u.Escaped? ==> s[p + 1] == u.c)
    requires InQuotes(u) && |word| < MAX_WORD
    ensures ScanVal(s, p, InEscVal, word, true, value)
         == ScanVal(s, p + |UnitText(u)|, InEscVal, word + [u.c], true, value)
  {
    hide IsSpace;
  }

  lemma {:induction false} BareScanned(s: string, p: nat, q: nat, us: seq<Unit>, word: string, value: bool)
    requires p <= q <= |s| && s[p..q] == Spelled(us) && AllInBare(us, value) && Stops(s, q, value)
    requires |word| + |Meant(us)| <= MAX_WORD
    ensures ScanVal(s, p, InVal, word, false, value) == Got(Rests(s, q), word + Meant(us), false)
    decreases |us|
  {
    hide ScanVal, IsSpace, Spelled, Meant, InBare, Stops, Rests, UnitText;
    if us == [] {
      EmptyWord(s, p, word);
      BareStops(s, q, word, value);
    } else {
      var u := us[0];
      TakeUnit(s, p, q, us);
      BareStep(s, p, u, word, value);
      BareScanned(s, p + |UnitText(u)|, q, us[1..], word + [u.c], value);
      assert word + [u.c] + Meant(us[1..]) == word + Meant(us);
    }
  }

  lemma {:induction false} QuotedScanned(s: string, p: nat, q: nat, us: seq<Unit>, word: string, value: bool)
    requires p <= q < |s| && s[p..q] == Spelled(us) && AllInQuotes(us) && s[q] == '"'
    requires |word| + |Meant(us)| <= MAX_WORD
    ensures ScanVal(s, p, InEscVal, word, true, value) == Got(q, word + Meant(us), true)
    decreases |us|
  {
    hide ScanVal, IsSpace, Spelled, Meant, InQuotes, UnitText;
    if us == [] {
      EmptyWord(s, p, word);
      QuotedStops(s, q, word, value);
    } else {
      var u := us[0];
      TakeUnit(s, p, q, us);
      QuotedStep(s, p, u, word, value);
      QuotedScanned(s, p + |UnitText(u)|, q, us[1..], word + [u.c], value);
      assert word + [u.c] + Meant(us[1..]) == word + Meant(us);
    }
  }

  // ------------------------------------------------------- between words

  /** Spaces do not matter before the arrow or the comma. */
  lemma {:induction false} SkipPairs(s: string, p: nat, st: PairState, pairs: seq<Pairs>, key: string)
    requires p <= |s| && (st == WEq || st == WDel)
    ensures ScanPairs(s, p, st, pairs, key) == ScanPairs(s, SkipBlank(s, p), st, pairs, key)
    decreases |s| - p
  {
    hide ScanVal;
    if p < |s| && IsSpace(s[p]) {
      SkipPairs(s, p + 1, st, pairs, key);
    }
  }

  /** Resting on the space behind a bare word or before it makes no difference. */
  lemma {:induction false} SkipRest(s: string, q: nat, w: Word)
    requires q <= |s|
    ensures 0 <= WordRests(s, q, w) + 1 <= |s| && SkipBlank(s, WordRests(s, q, w) + 1) == SkipBlank(s, q)
  {
  }

  /** What follows a key: an arrow, behind spaces. */
  lemma {:induction false} Arrow(s: string, q: nat, w: Word, pairs: seq<Pairs>, key: string)
    requires q <= |s| && NoNul(s)
    ensures 0 <= WordRests(s, q, w) + 1 <= |s|
    ensures var j := SkipBlank(s, q);
      var r := ScanPairs(s, WordRests(s, q, w) + 1, WEq, pairs, key);
      if j + 2 <= |s| && s[j] == '=' && s[j + 1] == '>' then r == ScanPairs(s, j + 2, WVal, pairs, key) else r.Failed?
  {
    hide ScanVal, IsSpace, SkipBlank, Blank;
    SkipRest(s, q, w);
    SkipPairs(s, WordRests(s, q, w) + 1, WEq, pairs, key);
  }

  /** What follows a value: the end or a comma, behind spaces. */
  lemma {:induction false} Comma(s: string, q: nat, w: Word, pairs: seq<Pairs>, key: string)
    requires q <= |s| && NoNul(s)
    ensures 0 <= WordRests(s, q, w) + 1 <= |s|
    ensures var j := SkipBlank(s, q);
      var r := ScanPairs(s, WordRests(s, q, w) + 1, WDel, pairs, key);
      if j == |s| then r == Parsed(pairs)
      else if s[j] == ',' then r == ScanPairs(s, j + 1, WKey, pairs, key)
      else r.Failed?
  {
    hide ScanVal, IsSpace, SkipBlank, Blank;
    SkipRest(s, q, w);
    SkipPairs(s, WordRests(s, q, w) + 1, WDel, pairs, key);
  }

  // ---------------------------------------------------------------- pairs

  lemma {:induction false} Split(s: string, p: nat, j: nat, a: string, b: string)
    requires p <= j <= |s| && s[p..j] == a + b
    ensures p + |a| <= j && s[p..p + |a|] == a && s[p + |a|..j] == b
  {
    var t := s[p..j];
    assert t[..|a|] == a && t[|a|..] == b;
    forall k | 0 <= k < |b| ensures s[p + |a| + k] == b[k] {
      assert t[|a| + k] == b[k];
    }
  }

  lemma {:induction false} SkipExact(s: string, p: nat, i: nat)
    requires p <= i <= |s| && Blank(s[p..i]) && (i < |s| ==> !IsSpace(s[i]))
    ensures SkipBlank(s, p) == i
    decreases i - p
  {
    if p < i {
      assert s[p] == s[p..i][0];
      var rest := s[p + 1..i];
      forall k | 0 <= k < |rest| ensures IsSpace(rest[k]) {
        assert rest[k] == s[p..i][k + 1];
      }
      SkipExact(s, p + 1, i);
    }
  }

  lemma {:induction false} StopsAfter(s: string, q: nat, j: nat, value: bool)
    requires q <= j <= |s| && Blank(s[q..j]) && (if j < |s| then Ends(s[j], value) else j == |s|)
    ensures Stops(s, q, value)
  {
    if q < j {
      assert s[q] == s[q..j][0];
    }
  }

  lemma {:induction false} NoSpaceFirst(w: Word, value: bool)
    requires IsWord(w, value)
    ensures WordText(w) != "" && !IsSpace(WordText(w)[0])
  {
  }

  /** A word between spaces: what `get_val` makes of it, and where the spaces end. */
  lemma {:induction false} Token(s: string, p: nat, i: nat, q: nat, j: nat, w: Word, value: bool)
    requires p <= i <= q <= j <= |s| && Blank(s[p..i]) && s[i..q] == WordText(w) && Blank(s[q..j])
    requires IsWord(w, value) && |Meant(w.units)| <= MAX_WORD
    requires if j < |s| then Ends(s[j], value) && !IsSpace(s[j]) else j == |s|
    ensures i < q && SkipBlank(s, q) == j
    ensures ScanVal(s, p, WaitVal, "", false, value) == Got(WordRests(s, q, w), Meant(w.units), w.Quoted?)
  {
    hide IsSpace, IsWord, WordText, ScanVal, WordRests, Meant, SkipBlank, Blank, Ends;
    NoSpaceFirst(w, value);
    assert s[i] == s[i..q][0];
    SkipExact(s, p, i);
    SkipExact(s, q, j);
    StopsAfter(s, q, j, value);
    WordScanned(s, p, i, q, w, value);
  }

  /** Where the parts of an entry stand that fills s from p to j. */
  ghost predicate Placed(s: string, p: nat, j: nat, e: Entry, i1: nat, q1: nat, j1: nat, i2: nat, q2: nat) {
    && p <= i1 <= q1 <= j1 && j1 + 2 <= i2 <= q2 <= j <= |s|
    && s[p..i1] == e.b1 && s[i1..q1] == WordText(e.key) && s[q1..j1] == e.b2 && s[j1..j1 + 2] == "=>"
    && s[j1 + 2..i2] == e.b3 && s[i2..q2] == WordText(e.val) && s[q2..j] == e.b4
  }

  lemma {:induction false} Places(s: string, p: nat, j: nat, e: Entry)
    returns (i1: nat, q1: nat, j1: nat, i2: nat, q2: nat)
    requires p <= j <= |s| && s[p..j] == EntryText(e)
    ensures Placed(s, p, j, e, i1, q1, j1, i2, q2)
  {
    hide WordText;
    var v := "=>" + (e.b3 + (WordText(e.val) + e.b4));
    i1, q1 := Between(s, p, j, e.b1, WordText(e.key), e.b2 + v);
    Split(s, q1, j, e.b2, v);
    j1 := q1 + |e.b2|;
    Split(s, j1, j, "=>", e.b3 + (WordText(e.val) + e.b4));
    i2, q2 := Between(s, j1 + 2, j, e.b3, WordText(e.val), e.b4);
  }

  lemma {:induction false} Between(s: string, p: nat, j: nat, a: string, b: string, c: string)
    returns (i: nat, q: nat)
    requires p <= j <= |s| && s[p..j] == a + (b + c)
    ensures p <= i <= q <= j && s[p..i] == a && s[i..q] == b && s[q..j] == c
  {
    Split(s, p, j, a, b + c);
    Split(s, p + |a|, j, b, c);
    i, q := p + |a|, p + |a| + |b|;
  }

  lemma {:induction false} Assembled(
    s: string, p: nat, j: nat, e: Entry, i1: nat, q1: nat, j1: nat, i2: nat, q2: nat)
    requires Placed(s, p, j, e, i1, q1, j1, i2, q2)
    ensures s[p..j] == EntryText(e)
  {
    hide WordText;
    assert s[i2..j] == s[i2..q2] + s[q2..j];
    assert s[j1 + 2..j] == s[j1 + 2..i2] + s[i2..j];
    assert s[j1..j] == s[j1..j1 + 2] + s[j1 + 2..j];
    assert s[q1..j] == s[q1..j1] + s[j1..j];
    assert s[i1..j] == s[i1..q1] + s[q1..j];
    assert s[p..j] == s[p..i1] + s[i1..j];
  }

  /** An entry that stands in the text is read as the grammar says. */
  lemma {:induction false} EntryScanned(s: string, p: nat, j: nat, e: Entry, pairs: seq<Pairs>, key: string)
    requires p <= j <= |s| && NoNul(s) && IsEntry(e) && s[p..j] == EntryText(e) && (j == |s| || s[j] == ',')
    requires |pairs| < MAX_PAIRS
    ensures ScanPairs(s, p, WKey, pairs, key)
         == if j == |s| then Parsed(pairs + [EntryPair(e)])
            else ScanPairs(s, j + 1, WKey, pairs + [EntryPair(e)], Meant(e.key.units))
  {
    hide IsEntry, EntryText, EntryPair, ScanPairs, Meant, NoNul, Placed, WordText;
    var i1, q1, j1, i2, q2 := Places(s, p, j, e);
    KeyScanned(s, p, j, e, i1, q1, j1, i2, q2, pairs, key);
    ValScanned(s, p, j, e, i1, q1, j1, i2, q2, pairs, Meant(e.key.units));
  }

  lemma {:induction false} KeyScanned(s: string, p: nat, j: nat, e: Entry,
    i1: nat, q1: nat, j1: nat, i2: nat, q2: nat, pairs: seq<Pairs>, key: string)
    requires Placed(s, p, j, e, i1, q1, j1, i2, q2) && NoNul(s) && IsEntry(e) && |pairs| < MAX_PAIRS
    ensures j1 + 2 <= |s|
    ensures ScanPairs(s, p, WKey, pairs, key) == ScanPairs(s, j1 + 2, WVal, pairs, Meant(e.key.units))
  {
    hide IsSpace, IsWord, WordText, ScanVal, WordRests, Meant, SkipBlank, Blank, NoNul;
    NotSpaces();
    assert s[j1] == s[j1..j1 + 2][0] == '=' && s[j1 + 1] == s[j1..j1 + 2][1] == '>';
    Token(s, p, i1, q1, j1, e.key, false);
    Arrow(s, q1, e.key, pairs, Meant(e.key.units));
  }

  lemma {:induction false} ValScanned(s: string, p: nat, j: nat, e: Entry,
    i1: nat, q1: nat, j1: nat, i2: nat, q2: nat, pairs: seq<Pairs>, key: string)
    requires Placed(s, p, j, e, i1, q1, j1, i2, q2) && NoNul(s) && IsEntry(e) && (j == |s| || s[j] == ',')
    requires key == Meant(e.key.units)
    ensures ScanPairs(s, j1 + 2, WVal, pairs, key)
         == if j == |s| then Parsed(pairs + [EntryPair(e)])
            else ScanPairs(s, j + 1, WKey, pairs + [EntryPair(e)], key)
  {
    hide IsSpace, IsWord, WordText, ScanVal, WordRests, Meant, SkipBlank, Blank, NoNul, SpellsNull, Lower;
    NotSpaces();
    SpellsNullIff(Meant(e.val.units));
    Token(s, j1 + 2, i2, q2, j, e.val, true);
    Comma(s, q2, e.val, pairs + [EntryPair(e)], key);
  }

  /** What the parser takes for a pair is an entry of the grammar. */
  lemma {:induction false} EntryFound(s: string, p: nat, pairs: seq<Pairs>, key: string) returns (j: nat, e: Entry)
    requires p <= |s| && NoNul(s) && ScanPairs(s, p, WKey, pairs, key).Parsed?
    requires ScanVal(s, p, WaitVal, "", false, false).Got?
    ensures p < j <= |s| && IsEntry(e) && s[p..j] == EntryText(e) && (j == |s| || s[j] == ',')
    ensures |pairs| < MAX_PAIRS
  {
    hide IsSpace, IsWord, WordText, ScanVal, WordRests, Meant, SkipBlank, Blank, NoNul, SpellsNull, EntryText, Stops;
    var i1, q1, k := WordFound(s, p, false);
    var word := Meant(k.units);
    Arrow(s, q1, k, pairs, word);
    var j1 := SkipBlank(s, q1);
    ValueFound(s, j1 + 2, pairs, word);
    var i2, q2, v := WordFound(s, j1 + 2, true);
    Comma(s, q2, v, pairs + [Pairs(word, Meant(v.units), SpellsNull(Meant(v.units)) && v.Bare?, true)], word);
    j := SkipBlank(s, q2);
    e := Entry(s[p..i1], k, s[q1..j1], s[j1 + 2..i2], v, s[q2..j]);
    assert s[j1..j1 + 2] == "=>";
    Assembled(s, p, j, e, i1, q1, j1, i2, q2);
  }

  lemma {:induction false} ValueFound(s: string, p: nat, pairs: seq<Pairs>, key: string)
    requires p <= |s| && ScanPairs(s, p, WVal, pairs, key).Parsed?
    ensures ScanVal(s, p, WaitVal, "", false, true).Got?
  {
    hide ScanVal;
  }

  // ------------------------------------------------------- the whole text

  lemma {:induction false} TextScanned(s: string, p: nat, t: Text, pairs: seq<Pairs>, key: string)
    requires p <= |s| && NoNul(s) && IsText(t) && s[p..] == Render(t) && |pairs| + |TextPairs(t)| <= MAX_PAIRS
    ensures ScanPairs(s, p, WKey, pairs, key) == Parsed(pairs + TextPairs(t))
    decreases t
  {
    hide IsEntry, EntryText, EntryPair, Meant, NoNul, ScanPairs, ScanVal, IsSpace, SkipBlank;
    match t
    case Nothing(b) =>
      NothingScanned(s, p, pairs, key);
      assert pairs + TextPairs(t) == pairs;
    case Last(e) =>
      assert s[p..|s|] == EntryText(e);
      EntryScanned(s, p, |s|, e, pairs, key);
    case More(e, rest) =>
      var n := |EntryText(e)|;
      assert s[p..|s|] == EntryText(e) + ("," + Render(rest));
      Split(s, p, |s|, EntryText(e), "," + Render(rest));
      Split(s, p + n, |s|, ",", Render(rest));
      assert s[p + n] == s[p + n..p + n + 1][0];
      assert s[p + n + 1..] == s[p + n + 1..|s|];
      EntryScanned(s, p, p + n, e, pairs, key);
      TextScanned(s, p + n + 1, rest, pairs + [EntryPair(e)], Meant(e.key.units));
      assert pairs + [EntryPair(e)] + TextPairs(rest) == pairs + TextPairs(t);
  }

  lemma {:induction false} NothingScanned(s: string, p: nat, pairs: seq<Pairs>, key: string)
    requires p <= |s| && Blank(s[p..])
    ensures ScanPairs(s, p, WKey, pairs, key) == Parsed(pairs)
  {
    hide IsSpace, Blank;
    assert s[p..|s|] == s[p..];
    SkipExact(s, p, |s|);
    SkipScan(s, p, false);
    assert ScanVal(s, |s|, WaitVal, "", false, false) == End;
    hide ScanVal;
  }

  lemma {:induction false} NothingFound(s: string, p: nat)
    requires p <= |s| && NoNul(s) && ScanVal(s, p, WaitVal, "", false, false).End?
    ensures Blank(s[p..])
    decreases |s| - p
  {
    if p < |s| {
      ScanEnds(s, p);
      NothingFound(s, p + 1);
      assert s[p..] == [s[p]] + s[p + 1..];
    }
  }

  /** A word once begun does not end the list. */
  lemma {:induction false} ScanEnds(s: string, p: nat)
    requires p < |s| && NoNul(s) && ScanVal(s, p, WaitVal, "", false, false).End?
    ensures IsSpace(s[p]) && ScanVal(s, p + 1, WaitVal, "", false, false).End?
  {
    var n := p + 1;
    forall st, word, escaped | st != WaitVal ensures !ScanVal(s, n, st, word, escaped, false).End? {
      NeverEnds(s, n, st, word, escaped);
    }
  }

  lemma {:induction false} NeverEnds(s: string, p: nat, st: ValState, word: string, escaped: bool)
    requires p <= |s| && st != WaitVal
    ensures !ScanVal(s, p, st, word, escaped, false).End?
    decreases |s| - p
  {
    if p < |s| {
      var n := p + 1;
      forall st', w | st' != WaitVal ensures !ScanVal(s, n, st', w, escaped, false).End? {
        NeverEnds(s, n, st', w, escaped);
      }
    }
  }

  lemma {:induction false} TextFound(s: string, p: nat, pairs: seq<Pairs>, key: string) returns (t: Text)
    requires p <= |s| && NoNul(s) && ScanPairs(s, p, WKey, pairs, key).Parsed? && |pairs| <= MAX_PAIRS
    ensures IsText(t) && Render(t) == s[p..] && |pairs| + |TextPairs(t)| <= MAX_PAIRS
    decreases |s| - p
  {
    hide IsEntry, EntryText, Meant, ScanVal, Blank, EntryPair;
    if ScanVal(s, p, WaitVal, "", false, false).End? {
      NothingFound(s, p);
      t := Nothing(s[p..]);
    } else {
      var j, e := EntryFound(s, p, pairs, key);
      if j == |s| {
        t := Last(e);
        assert s[p..] == s[p..j];
      } else {
        EntryScanned(s, p, j, e, pairs, key);
        var rest := TextFound(s, j + 1, pairs + [EntryPair(e)], Meant(e.key.units));
        t := More(e, rest);
        assert s[p..] == s[p..j] + [s[j]] + s[j + 1..];
      }
    }
  }

  /** The parser accepts exactly the texts of the grammar, with words and lists it
      has room for, and returns the pairs they spell; in particular no such text
      spells two lists of pairs. */
  lemma {:induction false} AcceptsGrammar(s: string, ps: seq<Pairs>)
    requires NoNul(s)
    ensures ScanPairs(s, 0, WKey, [], "") == Parsed(ps)
       <==> |ps| <= MAX_PAIRS && exists t :: IsText(t) && Render(t) == s && TextPairs(t) == ps
  {
    hide ScanPairs, IsText, Render, TextPairs;
    forall t | IsText(t) && Render(t) == s && |TextPairs(t)| <= MAX_PAIRS
      ensures ScanPairs(s, 0, WKey, [], "") == Parsed(TextPairs(t))
    {
      assert s[0..] == s;
      TextScanned(s, 0, t, [], "");
      assert [] + TextPairs(t) == TextPairs(t);
    }
    if ScanPairs(s, 0, WKey, [], "") == Parsed(ps) {
      var t := TextFound(s, 0, [], "");
      assert s[0..] == s;
    }
  }

  // --------------------------------------------------------- plain pairs

  /** A word that needs no quotes anywhere. */
  ghost predicate PlainWord(w: string) {
    0 < |w| <= MAX_WORD && forall i :: 0 <= i < |w| ==> PlainChar(w[i])
  }

  predicate PlainChar(c: char) {
    c != '\0' && c != '=' && c != ',' && c != '"' && c != '\\' && c as int != 32 && !(9 <= c as int <= 13)
  }

  ghost function PlainUnits(w: string): (us: seq<Unit>)
    ensures |us| == |w| && forall i :: 0 <= i < |us| ==> us[i] == Plain(w[i])
  {
    seq(|w|, i requires 0 <= i < |w| => Plain(w[i]))
  }

  lemma {:induction false} PlainSpelled(w: string)
    ensures Spelled(PlainUnits(w)) == w && Meant(PlainUnits(w)) == w
  {
    if w != "" {
      PlainSpelled(w[1..]);
      assert PlainUnits(w)[1..] == PlainUnits(w[1..]);
      assert w == [w[0]] + w[1..];
    }
  }

  lemma {:induction false} PlainIsWord(w: string, value: bool)
    requires PlainWord(w)
    ensures IsWord(Bare(PlainUnits(w)), value) && NoNul(w)
  {
    hide IsSpace;
    forall i | 0 <= i < |w| ensures !IsSpace(w[i]) && PlainChar(w[i]) {
      IsSpaceIff(w[i]);
    }
  }

  /** k=>v, of two plain words, is one pair; its value is null exactly when v is null
      but for capitals. */
  lemma {:induction false} PlainPair(k: string, v: string)
    requires PlainWord(k) && PlainWord(v)
    ensures ScanPairs(k + "=>" + v, 0, WKey, [], "") == Parsed([Pairs(k, v, Lower(v) == "null", true)])
  {
    hide PlainWord, PlainUnits, IsWord, ScanPairs, Spelled, Meant, Lower;
    PlainIsWord(k, false);
    PlainIsWord(v, true);
    PlainSpelled(k);
    PlainSpelled(v);
    PlainLength(k);
    PlainLength(v);
    var e := Entry("", Bare(PlainUnits(k)), "", "", Bare(PlainUnits(v)), "");
    var s := k + "=>" + v;
    assert EntryText(e) == s;
    assert IsEntry(e);
    assert s[0..] == s;
    TextScanned(s, 0, Last(e), [], "");
    assert [] + TextPairs(Last(e)) == [EntryPair(e)];
  }

  lemma {:induction false} PlainLength(w: string)
    requires PlainWord(w)
    ensures |w| <= MAX_WORD
  {
  }
}
