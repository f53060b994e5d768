/** The text form of an hstore: the escaping printer `hstore_out` and the
    two-level state machine `hstore_in` (`parse_hstore` over `get_val`). */
module HstoreText {
  import opened Common
  import opened HstoreLayout
  import opened HstorePairs
  import opened HstoreOps

  const HSTORE_MAX_LEN := 0x3fff_ffff

  // ------------------------------------------------------------ printing

  function Escape(s: string): string {
    if s == "" then "" else (if s[0] == '"' || s[0] == '\\' then ['\\', s[0]] else [s[0]]) + Escape(s[1..])
  }

  function PrintValue(v: Option<string>): string {
    match v
    case None => "NULL"
    case Some(t) => "\"" + Escape(t) + "\""
  }

  function PrintPair(p: Pair): string {
    "\"" + Escape(p.key) + "\"=>" + PrintValue(p.val)
  }

  /** The text of the pairs from i on, with the separators between them. */
  function PrintFrom(ps: seq<Pair>, i: nat): string
    requires i <= |ps|
    decreases |ps| - i
  {
    if i == |ps| then ""
    else PrintPair(ps[i]) + (if i + 1 != |ps| then ", " else "") + PrintFrom(ps, i + 1)
  }

  function Print(ps: seq<Pair>): string {
    PrintFrom(ps, 0)
  }

  /** The room `hstore_out` sets aside for the pairs from i on. */
  ghost function RoomFrom(ps: seq<Pair>, i: nat): nat
    requires i <= |ps|
    decreases |ps| - i
  {
    if i == |ps| then 0 else RoomFor(ps[i]) + RoomFrom(ps, i + 1)
  }

  ghost function RoomFor(p: Pair): nat {
    6 + 2 * |p.key| + 2 + if p.val.None? then 2 else 2 * |p.val.value|
  }

  /** How many values from i on are null. */
  ghost function NullsFrom(ps: seq<Pair>, i: nat): nat
    requires i <= |ps|
    decreases |ps| - i
  {
    if i == |ps| then 0 else (if ps[i].val.None? then 1 else 0) + NullsFrom(ps, i + 1)
  }

  /** The room for all pairs: eight bytes each, twice their text, and two for a null. */
  lemma {:induction false} RoomIs(ps: seq<Pair>, i: nat)
    requires i <= |ps|
    ensures StartOf(ps, i) <= |Chars(ps)|
    ensures RoomFrom(ps, i) == 8 * (|ps| - i) + 2 * (|Chars(ps)| - StartOf(ps, i)) + 2 * NullsFrom(ps, i)
    decreases |ps| - i
  {
    hide Chars;
    if i == |ps| {
      assert ps[..i] == ps;
    } else {
      RoomIs(ps, i + 1);
      WordsAt(ps, i);
    }
  }

  lemma {:induction false} EscapeLength(s: string)
    ensures |s| <= |Escape(s)| <= 2 * |s|
  {
    if s != "" { EscapeLength(s[1..]); }
  }

  function Specials(s: string): nat {
    if s == "" then 0 else (if s[0] == '"' || s[0] == '\\' then 1 else 0) + Specials(s[1..])
  }

  /** Nothing is written but a backslash for each quote and each backslash. */
  lemma {:induction false} EscapeExact(s: string)
    ensures |Escape(s)| == |s| + Specials(s)
    ensures Specials(s) == 0 ==> Escape(s) == s
  {
    if s != "" { EscapeExact(s[1..]); }
  }

  /** How a list of pairs looks. */
  lemma {:induction false} PrintedLook()
    ensures Print([Pair("a", Some("1")), Pair("b", None)]) == "\"a\"=>\"1\", \"b\"=>NULL"
  {
    hide PrintPair, PrintFrom;
    var ps := [Pair("a", Some("1")), Pair("b", None)];
    FirstLook();
    SecondLook();
    PrintUnfold(ps, 0);
    PrintUnfold(ps, 1);
    assert PrintPair(ps[1]) + "" == PrintPair(ps[1]);
  }

  lemma {:induction false} FirstLook()
    ensures PrintPair(Pair("a", Some("1"))) == "\"a\"=>\"1\""
  {
    EscapeExact("a");
    EscapeExact("1");
    hide Escape;
  }

  lemma {:induction false} SecondLook()
    ensures PrintPair(Pair("b", None)) == "\"b\"=>NULL"
  {
    EscapeExact("b");
    hide Escape;
  }

  lemma {:induction false} EscapeSnoc(s: string, c: char)
    ensures Escape(s + [c]) == Escape(s) + if c == '"' || c == '\\' then ['\\', c] else [c]
  {
    if s == "" {
      assert s + [c] == [c];
    } else {
      assert (s + [c])[1..] == s[1..] + [c];
      EscapeSnoc(s[1..], c);
    }
  }

  /** A run of single-character stores `*ptr++ = c`. */
  method Put(out: array<char>, ptr: nat, s: string) returns (p: nat)
    requires ptr + |s| <= out.Length
    modifies out
    ensures p == ptr + |s| && out[..p] == old(out[..ptr]) + s
  {
    forall k | 0 <= k < |s| {
      out[ptr + k] := s[k];
    }
    p := ptr + |s|;
  }

  /** `cpw`: copies src with a backslash before quotes and backslashes. */
  method Cpw(out: array<char>, dst: nat, src: string) returns (p: nat)
    requires dst + 2 * |src| <= out.Length
    modifies out
    ensures p == dst + |Escape(src)| <= dst + 2 * |src| && out[..p] == old(out[..dst]) + Escape(src)
  {
    hide Escape;
    ghost var was := out[..dst];
    p := dst;
    EmptyEscape();
    for i := 0 to |src|
      invariant p == dst + |Escape(src[..i])| && dst <= p <= dst + 2 * i
      invariant out[..p] == was + Escape(src[..i])
    {
      EscapeSnoc(src[..i], src[i]);
      assert src[..i + 1] == src[..i] + [src[i]];
      if src[i] == '"' || src[i] == '\\' {
        p := Put(out, p, ['\\']);
      }
      p := Put(out, p, [src[i]]);
    }
    assert src[..|src|] == src;
  }

  lemma {:induction false} EmptyEscape()
    ensures Escape("") == ""
  {
  }

  /** `hstore_out`: the printed pairs, in a buffer sized beforehand; no store
      ever leaves the buffer, the terminating NUL included. */
  method HstoreOut(h: HStore) returns (r: Result<string>)
    requires h.Canonical()
    ensures var ps := h.Decode();
      r.TooBig? <==> 8 * |ps| + 2 * |Chars(ps)| + 2 * NullsFrom(ps, 0) > MAX_ALLOC
    ensures r.Ok? ==> r.value == Print(h.Decode())
  {
    hide HStore.Canonical, HStore.Layout, HStore.Decode, Escape, HStore.PairAt, HStore.Key, HStore.Text, IsNull, Chars,
      NullsFrom, PrintFrom, RoomFrom, RoomFor, PrintPair;
    CanonicalLayout(h);
    ghost var ps := h.Decode();
    var count := |h.entries| / 2;
    NothingToPrint(ps);
    WholeRoom(ps);
    if count == 0 {
      return Ok("");
    }
    var buflen := 0;
    for i := 0 to count
      invariant buflen + RoomFrom(ps, i) == RoomFrom(ps, 0)
    {
      RoomStep(h, i);
      buflen := buflen + (6 + 2 * |h.Key(i)|);
      buflen := buflen + (2 + if IsNull(h.entries[2 * i + 1]) then 2 else 2 * |h.Text(2 * i + 1)|);
    }
    if buflen > MAX_ALLOC {
      return TooBig;
    }
    var out := new char[buflen];
    var ptr := 0;
    for i := 0 to count
      invariant 0 <= ptr && ptr + RoomFrom(ps, i) <= buflen && (i == count ==> ptr < buflen)
      invariant out[..ptr] + PrintFrom(ps, i) == Print(ps)
    {
      RoomStep(h, i);
      PrintStep(ps, i, out[..ptr]);
      ptr := OutPair(out, ptr, h, i);
      if i + 1 != count {
        ptr := Put(out, ptr, ", ");
      }
    }
    out[ptr] := '\0';
    assert out[..ptr] + PrintFrom(ps, count) == out[..ptr];
    return Ok(out[..ptr]);
  }

  lemma {:induction false} WholeRoom(ps: seq<Pair>)
    ensures RoomFrom(ps, 0) == 8 * |ps| + 2 * |Chars(ps)| + 2 * NullsFrom(ps, 0)
  {
    RoomIs(ps, 0);
    StartsAtZero(ps);
  }

  lemma {:induction false} NothingToPrint(ps: seq<Pair>)
    ensures PrintFrom(ps, |ps|) == "" && RoomFrom(ps, |ps|) == 0
  {
  }

  lemma {:induction false} RoomStep(h: HStore, i: nat)
    requires h.Layout() && i < |h.entries| / 2
    ensures RoomFrom(h.Decode(), i) == RoomFor(h.Decode()[i]) + RoomFrom(h.Decode(), i + 1)
    ensures RoomFor(h.Decode()[i])
         == 6 + 2 * |h.Key(i)| + 2 + if IsNull(h.entries[2 * i + 1]) then 2 else 2 * |h.Text(2 * i + 1)|
  {
    hide HStore.Layout, HStore.Decode, IsNull, HStore.Text;
  }

  lemma {:induction false} PrintStep(ps: seq<Pair>, i: nat, done: string)
    requires i < |ps| && done + PrintFrom(ps, i) == Print(ps)
    ensures done + PrintPair(ps[i]) + (if i + 1 != |ps| then ", " else "") + PrintFrom(ps, i + 1) == Print(ps)
  {
    hide Print, PrintPair;
  }

  /** One pair: key, arrow, and NULL or a quoted value. */
  method OutPair(out: array<char>, ptr: nat, h: HStore, i: nat) returns (p: nat)
    requires h.Layout() && i < |h.entries| / 2 && ptr + RoomFor(h.Decode()[i]) <= out.Length
    modifies out
    ensures p + 2 <= ptr + RoomFor(h.Decode()[i]) && out[..p] == old(out[..ptr]) + PrintPair(h.Decode()[i])
  {
    hide HStore.Layout, HStore.Decode, Escape, HStore.Text, IsNull, PrintValue;
    ghost var was := out[..ptr];
    p := Put(out, ptr, "\"");
    p := Cpw(out, p, h.Key(i));
    p := Put(out, p, "\"=>");
    assert out[..p] == was + ("\"" + Escape(h.Key(i)) + "\"=>");
    p := OutValue(out, p, h, i);
  }

  method OutValue(out: array<char>, ptr: nat, h: HStore, i: nat) returns (p: nat)
    requires h.Layout() && i < |h.entries| / 2
    requires ptr + (if h.PairAt(i).val.None? then 4 else 2 + 2 * |h.PairAt(i).val.value|) <= out.Length
    modifies out
    ensures p <= ptr + if h.PairAt(i).val.None? then 4 else 2 + 2 * |h.PairAt(i).val.value|
    ensures out[..p] == old(out[..ptr]) + PrintValue(h.PairAt(i).val)
  {
    hide HStore.Layout, Escape, HStore.Text, IsNull;
    if IsNull(h.entries[2 * i + 1]) {
      p := Put(out, ptr, "NULL");
    } else {
      p := Put(out, ptr, "\"");
      p := Cpw(out, p, h.Text(2 * i + 1));
      p := Put(out, p, "\"");
    }
  }

  // ------------------------------------------------------------- parsing

  datatype ParseError = UnexpectedEnd | Syntax(c: char, pos: int) | KeyTooLong | ValueTooLong | NoRoom

  /** The longest word: its buffer doubles from 32 bytes and is refused the step from
      2^29 to 2^30. */
  const MAX_WORD := 0x1fff_ffff

  /** The most pairs: their array doubles from 16 entries of 40 bytes, as they are on
      a 64-bit machine, and is refused the step from 2^24 to 2^25. */
  const MAX_PAIRS := 0x100_0000

  predicate IsSpace(c: char) {
    c == ' ' || c == '\t' || c == '\n' || c == '\U{0B}' || c == '\U{0C}' || c == '\r'
  }

  /** A C string holds no NUL; one follows it. */
  ghost predicate NoNul(s: string) {
    forall i :: 0 <= i < |s| ==> s[i] != '\0'
  }

  function At(s: string, p: nat): char {
    if p < |s| then s[p] else '\0'
  }

  datatype ValState = WaitVal | InVal | InEscVal | WaitEscIn | WaitEscEscIn

  /** How `get_val` ends: with a word, at the end of the string, or in an error. */
  datatype Scan = Got(ptr: int, word: string, escaped: bool) | End | Bad(e: ParseError)

  /** `get_val` from character p on, in state st with `word` read so far. */
  function ScanVal(s: string, p: nat, st: ValState, word: string, escaped: bool, ignoreeq: bool): (r: Scan)
    requires p <= |s|
    ensures r.Got? ==> p <= r.ptr + 1 <= |s| && (st.WaitVal? ==> p <= r.ptr)
    decreases |s| - p
  {
    var c := At(s, p);
    match st
    case WaitVal =>
      if c == '"' then ScanVal(s, p + 1, InEscVal, word, true, ignoreeq)
      else if c == '\0' then End
      else if c == '=' && !ignoreeq then Bad(Syntax(c, p))
      else if c == '\\' then ScanVal(s, p + 1, WaitEscIn, word, escaped, ignoreeq)
      else if !IsSpace(c) then ScanVal(s, p + 1, InVal, word + [c], escaped, ignoreeq)
      else ScanVal(s, p + 1, WaitVal, word, escaped, ignoreeq)
    case InVal =>
      if c == '\\' then ScanVal(s, p + 1, WaitEscIn, word, escaped, ignoreeq)
      else if c == '=' && !ignoreeq then Got(p - 1, word, escaped)
      else if c == ',' && ignoreeq then Got(p - 1, word, escaped)
      else if IsSpace(c) then Got(p, word, escaped)
      else if c == '\0' then Got(p - 1, word, escaped)
      else if |word| >= MAX_WORD then Bad(NoRoom)
      else ScanVal(s, p + 1, InVal, word + [c], escaped, ignoreeq)
    case InEscVal =>
      if c == '\\' then ScanVal(s, p + 1, WaitEscEscIn, word, escaped, ignoreeq)
      else if c == '"' then Got(p, word, escaped)
      else if c == '\0' then Bad(UnexpectedEnd)
      else if |word| >= MAX_WORD then Bad(NoRoom)
      else ScanVal(s, p + 1, InEscVal, word + [c], escaped, ignoreeq)
    case WaitEscIn =>
      if c == '\0' then Bad(UnexpectedEnd)
      else if |word| >= MAX_WORD then Bad(NoRoom)
      else ScanVal(s, p + 1, InVal, word + [c], escaped, ignoreeq)
    case WaitEscEscIn =>
      if c == '\0' then Bad(UnexpectedEnd)
      else if |word| >= MAX_WORD then Bad(NoRoom)
      else ScanVal(s, p + 1, InEscVal, word + [c], escaped, ignoreeq)
  }

  /** pg_strcasecmp(word, "null") == 0 */
  predicate SpellsNull(w: string) {
    |w| == 4 && (w[0] == 'n' || w[0] == 'N') && (w[1] == 'u' || w[1] == 'U')
    && (w[2] == 'l' || w[2] == 'L') && (w[3] == 'l' || w[3] == 'L')
  }

  datatype PairState = WKey | WEq | WGt | WVal | WDel

  datatype Parse = Parsed(pairs: seq<Pairs>) | Failed(e: ParseError)

  /** `parse_hstore` from character p on; key is the key read last. */
  function ScanPairs(s: string, p: nat, st: PairState, pairs: seq<Pairs>, key: string): Parse
    requires p <= |s|
    decreases |s| - p
  {
    var c := At(s, p);
    match st
    case WKey => (
      match ScanVal(s, p, WaitVal, "", false, false)
      case End => Parsed(pairs)
      case Bad(e) => Failed(e)
      case Got(ptr, word, _) =>
        if |pairs| >= MAX_PAIRS then Failed(NoRoom)
        else if |word| > HSTORE_MAX_LEN then Failed(KeyTooLong)
        else ScanPairs(s, ptr + 1, WEq, pairs, word))
    case WEq =>
      if c == '=' then ScanPairs(s, p + 1, WGt, pairs, key)
      else if c == '\0' then Failed(UnexpectedEnd)
      else if !IsSpace(c) then Failed(Syntax(c, p))
      else ScanPairs(s, p + 1, WEq, pairs, key)
    case WGt =>
      if c == '>' then ScanPairs(s, p + 1, WVal, pairs, key)
      else if c == '\0' then Failed(UnexpectedEnd)
      else Failed(Syntax(c, p))
    case WVal => (
      match ScanVal(s, p, WaitVal, "", false, true)
      case End => Failed(UnexpectedEnd)
      case Bad(e) => Failed(e)
      case Got(ptr, word, escaped) =>
        if |word| > HSTORE_MAX_LEN then Failed(ValueTooLong)
        else ScanPairs(s, ptr + 1, WDel, pairs + [Pairs(key, word, SpellsNull(word) && !escaped, true)], key))
    case WDel =>
      if c == ',' then ScanPairs(s, p + 1, WKey, pairs, key)
      else if c == '\0' then Parsed(pairs)
      else if !IsSpace(c) then Failed(Syntax(c, p))
      else ScanPairs(s, p + 1, WDel, pairs, key)
  }

  /** Sizes that doubling leads to. */
  ghost predicate PowerOfTwo(n: nat) {
    n == 1 || (n > 0 && n % 2 == 0 && PowerOfTwo(n / 2))
  }

  lemma {:induction false} NextPower(n: nat, m: nat)
    requires PowerOfTwo(n) && PowerOfTwo(m) && n < m
    ensures 2 * n <= m && PowerOfTwo(2 * n)
  {
    if n > 1 {
      NextPower(n / 2, m / 2);
    }
  }

  lemma {:induction false} Times16(n: nat)
    requires PowerOfTwo(n)
    ensures PowerOfTwo(16 * n)
  {
    hide PowerOfTwo;
    Twice(n);
    Twice(2 * n);
    Twice(4 * n);
    Twice(8 * n);
  }

  lemma {:induction false} Twice(n: nat)
    requires PowerOfTwo(n)
    ensures PowerOfTwo(2 * n)
  {
  }

  lemma {:induction false} Limits()
    ensures PowerOfTwo(16) && PowerOfTwo(32) && PowerOfTwo(MAX_PAIRS) && PowerOfTwo(MAX_WORD + 1)
  {
    assert PowerOfTwo(1);
    hide PowerOfTwo;
    Times16(1);
    Times16(16);
    Times16(256);
    Times16(4096);
    Times16(65536);
    Times16(1048576);
    Times16(16777216);
    Twice(268435456);
    Twice(16);
  }

  /** The parser: its position, the word being read and the pairs read so far, with
      the sizes of the buffers that hold these. */
  class HSParser {
    const begin: string
    var ptr: int
    var word: string
    var wordlen: int
    var pairs: seq<Pairs>
    var plen: int

    constructor (text: string)
      ensures begin == text && ptr == 0 && pairs == []
    {
      begin := text;
      ptr, word, wordlen, pairs, plen := 0, "", 32, [], 16;
    }

    /** The word and its end fit the buffer. */
    ghost predicate WordFits()
      reads this
    {
      |word| < wordlen && 32 <= wordlen <= MAX_WORD + 1 && PowerOfTwo(wordlen)
    }

    /** RESIZEPRSBUF: makes room for one character more. */
    method Resize() returns (ok: bool)
      requires WordFits()
      modifies this`wordlen
      ensures ok <==> |word| < MAX_WORD
      ensures WordFits() && (ok ==> |word| + 1 < wordlen)
    {
      if |word| + 1 >= wordlen {
        Limits();
        if wordlen <= MAX_WORD { NextPower(wordlen, MAX_WORD + 1); }
        if 2 * wordlen > MAX_ALLOC {
          return false;
        }
        wordlen := 2 * wordlen;
      }
      return true;
    }

    /** Makes room for one pair more. */
    method Grow() returns (ok: bool)
      requires |pairs| <= plen <= MAX_PAIRS && PowerOfTwo(plen)
      modifies this`plen
      ensures ok <==> |pairs| < MAX_PAIRS
      ensures |pairs| <= plen <= MAX_PAIRS && PowerOfTwo(plen) && (ok ==> |pairs| < plen)
    {
      if |pairs| >= plen {
        Limits();
        if plen < MAX_PAIRS { NextPower(plen, MAX_PAIRS); }
        if PAIR_BYTES * (2 * plen) > MAX_ALLOC {
          return false;
        }
        plen := 2 * plen;
      }
      return true;
    }

    /** `get_val`, one character at a time; says how it ended as ScanVal does. */
    method GetVal(ignoreeq: bool) returns (r: Scan)
      requires 0 <= ptr <= |begin|
      modifies this`ptr, this`word, this`wordlen
      ensures r == ScanVal(begin, old(ptr), WaitVal, "", false, ignoreeq)
      ensures r.Got? ==> ptr == r.ptr && word == r.word
    {
      hide PowerOfTwo, IsSpace;
      ghost var start := ptr;
      var st, escaped := WaitVal, false;
      word, wordlen := "", 32;
      Limits();
      while true
        invariant 0 <= ptr <= |begin| && WordFits() && (st == WaitVal ==> word == "")
        invariant ScanVal(begin, ptr, st, word, escaped, ignoreeq)
               == ScanVal(begin, start, WaitVal, "", false, ignoreeq)
        decreases |begin| - ptr
      {
        var c := At(begin, ptr);
        if st == WaitVal {
          if c == '"' {
            escaped := true;
            st := InEscVal;
          } else if c == '\0' {
            return End;
          } else if c == '=' && !ignoreeq {
            return Bad(Syntax(c, ptr));
          } else if c == '\\' {
            st := WaitEscIn;
          } else if !IsSpace(c) {
            word := word + [c];
            st := InVal;
          }
        } else if st == InVal {
          if c == '\\' {
            st := WaitEscIn;
          } else if c == '=' && !ignoreeq {
            ptr := ptr - 1;
            return Got(ptr, word, escaped);
          } else if c == ',' && ignoreeq {
            ptr := ptr - 1;
            return Got(ptr, word, escaped);
          } else if IsSpace(c) {
            return Got(ptr, word, escaped);
          } else if c == '\0' {
            ptr := ptr - 1;
            return Got(ptr, word, escaped);
          } else {
            var ok := Resize();
            if !ok {
              return Bad(NoRoom);
            }
            word := word + [c];
          }
        } else if st == InEscVal {
          if c == '\\' {
            st := WaitEscEscIn;
          } else if c == '"' {
            return Got(ptr, word, escaped);
          } else if c == '\0' {
            return Bad(UnexpectedEnd);
          } else {
            var ok := Resize();
            if !ok {
              return Bad(NoRoom);
            }
            word := word + [c];
          }
        } else {
          if c == '\0' {
            return Bad(UnexpectedEnd);
          }
          var ok := Resize();
          if !ok {
            return Bad(NoRoom);
          }
          word := word + [c];
          st := if st == WaitEscIn then InVal else InEscVal;
        }
        ptr := ptr + 1;
      }
    }

    /** `parse_hstore` */
    method ParsePairs() returns (r: Parse)
      modifies this
      ensures r == ScanPairs(begin, 0, WKey, [], "")
      ensures r.Parsed? ==> pairs == r.pairs
    {
      hide ScanVal, PowerOfTwo, IsSpace, SpellsNull;
      var st, key := WKey, "";
      pairs, plen, ptr, word := [], 16, 0, "";
      Limits();
      while true
        invariant 0 <= ptr <= |begin| && |pairs| <= plen <= MAX_PAIRS && PowerOfTwo(plen)
        invariant st != WKey && st != WDel ==> |pairs| < plen
        invariant ScanPairs(begin, ptr, st, pairs, key) == ScanPairs(begin, 0, WKey, [], "")
        decreases |begin| - ptr
      {
        var c := At(begin, ptr);
        if st == WKey {
          var v := GetVal(false);
          if v.End? {
            return Parsed(pairs);
          } else if v.Bad? {
            return Failed(v.e);
          }
          var ok := Grow();
          if !ok {
            return Failed(NoRoom);
          }
          if |word| > HSTORE_MAX_LEN {
            return Failed(KeyTooLong);
          }
          key := word;
          st := WEq;
        } else if st == WEq {
          if c == '=' {
            st := WGt;
          } else if c == '\0' {
            return Failed(UnexpectedEnd);
          } else if !IsSpace(c) {
            return Failed(Syntax(c, ptr));
          }
        } else if st == WGt {
          if c == '>' {
            st := WVal;
          } else if c == '\0' {
            return Failed(UnexpectedEnd);
          } else {
            return Failed(Syntax(c, ptr));
          }
        } else if st == WVal {
          var v := GetVal(true);
          if v.End? {
            return Failed(UnexpectedEnd);
          } else if v.Bad? {
            return Failed(v.e);
          }
          if |word| > HSTORE_MAX_LEN {
            return Failed(ValueTooLong);
          }
          pairs := pairs + [Pairs(key, word, SpellsNull(word) && !v.escaped, true)];
          st := WDel;
        } else {
          if c == ',' {
            st := WKey;
          } else if c == '\0' {
            return Parsed(pairs);
          } else if !IsSpace(c) {
            return Failed(Syntax(c, ptr));
          }
        }
        ptr := ptr + 1;
      }
    }
  }

  // ---------------------------------------------------------- round trip

  /** The text t stands at position p of s. */
  ghost predicate Occurs(s: string, p: nat, t: string) {
    p + |t| <= |s| && s[p..p + |t|] == t
  }

  lemma {:induction false} OccursSplit(s: string, p: nat, a: string, b: string)
    requires Occurs(s, p, a + b)
    ensures Occurs(s, p, a) && Occurs(s, p + |a|, b)
  {
    var t := s[p..p + |a + b|];
    assert s[p..p + |a|] == t[..|a|];
    assert s[p + |a|..p + |a| + |b|] == t[|a|..];
  }

  lemma {:induction false} OccursAt(s: string, p: nat, t: string, i: nat)
    requires Occurs(s, p, t) && i < |t|
    ensures At(s, p + i) == t[i]
  {
    assert s[p..p + |t|][i] == s[p + i];
  }

  // ------------------------------------------------------------- lengths

  lemma {:induction false} WordShort(s: string, p: nat, st: ValState, word: string, escaped: bool, ignoreeq: bool)
    requires p <= |s| && |word| <= MAX_WORD && (st == WaitVal ==> word == "")
    ensures var r := ScanVal(s, p, st, word, escaped, ignoreeq); r.Got? ==> |r.word| <= MAX_WORD
    decreases |s| - p
  {
    if p < |s| {
      var n := p + 1;
      forall st', w, e | |w| <= MAX_WORD && (st' == WaitVal ==> w == "")
        ensures var r := ScanVal(s, n, st', w, e, ignoreeq); r.Got? ==> |r.word| <= MAX_WORD
      {
        WordShort(s, n, st', w, e, ignoreeq);
      }
    }
  }

  /** No key or value is ever reported as too long: memory for it runs out first. */
  lemma {:induction false} NeverTooLong(s: string, p: nat, st: PairState, pairs: seq<Pairs>, key: string)
    requires p <= |s|
    ensures var r := ScanPairs(s, p, st, pairs, key); r.Failed? ==> !r.e.KeyTooLong? && !r.e.ValueTooLong?
    decreases |s| - p
  {
    WordShort(s, p, WaitVal, "", false, false);
    WordShort(s, p, WaitVal, "", false, true);
    ScanErrors(s, p, WaitVal, "", false, false);
    ScanErrors(s, p, WaitVal, "", false, true);
    hide ScanVal;
    var n := p + 1;
    if n <= |s| {
      forall st', ps, k
        ensures var r := ScanPairs(s, n, st', ps, k); r.Failed? ==> !r.e.KeyTooLong? && !r.e.ValueTooLong?
      {
        NeverTooLong(s, n, st', ps, k);
      }
    }
    if st == WKey || st == WVal {
      var r := ScanVal(s, p, WaitVal, "", false, st == WVal);
      if r.Got? {
        var m := r.ptr + 1;
        forall st', ps, k
          ensures var q := ScanPairs(s, m, st', ps, k); q.Failed? ==> !q.e.KeyTooLong? && !q.e.ValueTooLong?
        {
          NeverTooLong(s, m, st', ps, k);
        }
      }
    }
  }

  lemma {:induction false} ScanErrors(s: string, p: nat, st: ValState, word: string, escaped: bool, ignoreeq: bool)
    requires p <= |s|
    ensures var r := ScanVal(s, p, st, word, escaped, ignoreeq); r.Bad? ==> !r.e.KeyTooLong? && !r.e.ValueTooLong?
    decreases |s| - p
  {
    if p < |s| {
      var n := p + 1;
      forall st', w, e
        ensures var r := ScanVal(s, n, st', w, e, ignoreeq); r.Bad? ==> !r.e.KeyTooLong? && !r.e.ValueTooLong?
      {
        ScanErrors(s, n, st', w, e, ignoreeq);
      }
    }
  }

  // ------------------------------------------------------- printed texts

  /** Inside quotes, the scanner undoes the escaping, as far as the buffer goes. */
  lemma {:induction false} ScanQuoted(s: string, p: nat, k: string, word: string, escaped: bool, ignoreeq: bool)
    requires Occurs(s, p, Escape(k) + "\"") && NoNul(k) && |word| <= MAX_WORD
    ensures ScanVal(s, p, InEscVal, word, escaped, ignoreeq)
         == if |word| + |k| <= MAX_WORD then Got(p + |Escape(k)|, word + k, escaped) else Bad(NoRoom)
    decreases |k|
  {
    if k == "" {
      assert Escape(k) + "\"" == "\"";
      OccursAt(s, p, "\"", 0);
      assert word + k == word;
    } else {
      var head := if k[0] == '"' || k[0] == '\\' then ['\\', k[0]] else [k[0]];
      var tail := Escape(k[1..]) + "\"";
      assert Escape(k) + "\"" == head + tail;
      OccursSplit(s, p, head, tail);
      if |word| < MAX_WORD {
        ScanQuoted(s, p + |head|, k[1..], word + [k[0]], escaped, ignoreeq);
        assert word + [k[0]] + k[1..] == word + k;
      }
      hide Escape, IsSpace, Occurs;
      OccursAt(s, p, head, 0);
      OccursAt(s, p, head, |head| - 1);
    }
  }

  lemma {:induction false} ScanQuotedWord(s: string, p: nat, k: string, ignoreeq: bool)
    requires Occurs(s, p, "\"" + Escape(k) + "\"") && NoNul(k)
    ensures ScanVal(s, p, WaitVal, "", false, ignoreeq)
         == if |k| <= MAX_WORD then Got(p + 1 + |Escape(k)|, k, true) else Bad(NoRoom)
  {
    hide Escape, IsSpace;
    var inner := Escape(k) + "\"";
    assert "\"" + Escape(k) + "\"" == "\"" + inner;
    OccursSplit(s, p, "\"", inner);
    OccursAt(s, p, "\"", 0);
    ScanQuoted(s, p + 1, k, "", true, ignoreeq);
    assert "" + k == k;
  }

  /** An unquoted NULL ends at the comma or at the end of the string. */
  lemma {:induction false} ScanNullWord(s: string, p: nat)
    requires Occurs(s, p, "NULL") && (At(s, p + 4) == ',' || At(s, p + 4) == '\0')
    ensures ScanVal(s, p, WaitVal, "", false, true) == Got(p + 3, "NULL", false)
  {
    OccursAt(s, p, "NULL", 0);
    OccursAt(s, p, "NULL", 1);
    OccursAt(s, p, "NULL", 2);
    OccursAt(s, p, "NULL", 3);
    hide Occurs;
    assert ScanVal(s, p + 4, InVal, "NULL", false, true) == Got(p + 3, "NULL", false);
    assert ScanVal(s, p + 3, InVal, "NUL", false, true) == Got(p + 3, "NULL", false) by {
      assert "NUL" + ['L'] == "NULL";
    }
    assert ScanVal(s, p + 2, InVal, "NU", false, true) == Got(p + 3, "NULL", false) by { assert "NU" + ['L'] == "NUL"; }
    assert ScanVal(s, p + 1, InVal, "N", false, true) == Got(p + 3, "NULL", false) by { assert "N" + ['U'] == "NU"; }
    assert "" + ['N'] == "N";
  }

  ghost predicate Printable(p: Pair) {
    NoNul(p.key) && (p.val.Some? ==> NoNul(p.val.value))
  }

  /** The words of the pair fit the buffer of the parser. */
  predicate Short(p: Pair) {
    |p.key| <= MAX_WORD && (p.val.Some? ==> |p.val.value| <= MAX_WORD)
  }

  /** What the parser makes of a printed pair. */
  ghost function Raw(p: Pair): Pairs {
    match p.val
    case None => Pairs(p.key, "NULL", true, true)
    case Some(v) => Pairs(p.key, v, false, true)
  }

  lemma {:induction false} ScanValue(s: string, p: nat, x: Pair)
    requires Printable(x) && Occurs(s, p, PrintValue(x.val))
    requires At(s, p + |PrintValue(x.val)|) == ',' || At(s, p + |PrintValue(x.val)|) == '\0'
    ensures ScanVal(s, p, WaitVal, "", false, true)
         == if x.val.Some? && |x.val.value| > MAX_WORD then Bad(NoRoom)
            else Got(p + |PrintValue(x.val)| - 1, Raw(x).val, x.val.Some?)
  {
    hide ScanVal, Occurs, Escape;
    match x.val
    case None => ScanNullWord(s, p);
    case Some(v) => ScanQuotedWord(s, p, v, true);
  }

  /** One printed pair takes the parser from waiting for a key to waiting for a
      delimiter, one pair richer, unless it or the list is too long. */
  lemma {:induction false} ScanPair(s: string, p: nat, x: Pair, pairs: seq<Pairs>, key: string)
    requires Printable(x) && Occurs(s, p, PrintPair(x))
    requires var e := p + |PrintPair(x)|; At(s, e) == ',' || At(s, e) == '\0'
    ensures p + |PrintPair(x)| <= |s|
    ensures ScanPairs(s, p, WKey, pairs, key)
         == if |pairs| < MAX_PAIRS && Short(x) then ScanPairs(s, p + |PrintPair(x)|, WDel, pairs + [Raw(x)], x.key)
            else Failed(NoRoom)
  {
    hide ScanVal, Occurs, Escape, PrintValue;
    var quoted := "\"" + Escape(x.key) + "\"";
    assert PrintPair(x) == quoted + ("=>" + PrintValue(x.val));
    OccursSplit(s, p, quoted, "=>" + PrintValue(x.val));
    var eq := p + |quoted|;
    OccursSplit(s, eq, "=>", PrintValue(x.val));
    OccursAt(s, eq, "=>", 0);
    OccursAt(s, eq, "=>", 1);
    assert "=>"[0] == '=' && "=>"[1] == '>';
    ScanQuotedWord(s, p, x.key, false);
    ScanValue(s, eq + 2, x);
    OccursRoom(s, eq + 2, PrintValue(x.val));
    if |pairs| < MAX_PAIRS && |x.key| <= MAX_WORD {
      calc {
        ScanPairs(s, p, WKey, pairs, key);
        ScanPairs(s, eq, WEq, pairs, x.key);
        ScanPairs(s, eq + 1, WGt, pairs, x.key);
        ScanPairs(s, eq + 2, WVal, pairs, x.key);
      }
    }
  }

  lemma {:induction false} OccursRoom(s: string, p: nat, t: string)
    requires Occurs(s, p, t)
    ensures p + |t| <= |s|
  {
  }

  ghost function RawFrom(ps: seq<Pair>, i: nat): seq<Pairs>
    requires i <= |ps|
    decreases |ps| - i
  {
    if i == |ps| then [] else [Raw(ps[i])] + RawFrom(ps, i + 1)
  }

  lemma {:induction false} ScanLastPair(s: string, p: nat, x: Pair, pairs: seq<Pairs>, key: string)
    requires Printable(x) && Occurs(s, p, PrintPair(x)) && p + |PrintPair(x)| == |s|
    ensures ScanPairs(s, p, WKey, pairs, key)
         == if |pairs| < MAX_PAIRS && Short(x) then Parsed(pairs + [Raw(x)]) else Failed(NoRoom)
  {
    hide Occurs, PrintPair, Printable, Raw, ScanPairs, At;
    AtEnd(s);
    ScanPair(s, p, x, pairs, key);
    Delimiter(s, |s|, pairs + [Raw(x)], x.key);
  }

  lemma {:induction false} ScanMiddlePair(s: string, p: nat, x: Pair, t: string, pairs: seq<Pairs>, key: string)
    requires Printable(x) && Occurs(s, p, PrintPair(x) + (", " + t))
    ensures Occurs(s, p + |PrintPair(x)| + 2, t) && p + |PrintPair(x)| + 2 <= |s|
    ensures ScanPairs(s, p, WKey, pairs, key)
         == if |pairs| < MAX_PAIRS && Short(x) then ScanPairs(s, p + |PrintPair(x)| + 2, WKey, pairs + [Raw(x)], x.key)
            else Failed(NoRoom)
  {
    hide Occurs, PrintPair, Printable, Raw, ScanPairs, At;
    var e, more := p + |PrintPair(x)|, pairs + [Raw(x)];
    OccursSplit(s, p, PrintPair(x), ", " + t);
    OccursSplit(s, e, ", ", t);
    OccursAt(s, e, ", ", 0);
    OccursAt(s, e, ", ", 1);
    OccursRoom(s, e, ", ");
    ScanPair(s, p, x, pairs, key);
    Delimiter(s, e, more, x.key);
    SkipSpace(s, e + 1, more, x.key);
  }

  /** The parser has room for the pairs from i on, behind n others. */
  predicate Room(ps: seq<Pair>, i: nat, n: nat) {
    n + |ps| - i <= MAX_PAIRS && forall j :: i <= j < |ps| ==> Short(ps[j])
  }

  lemma {:induction false} ScanPrinted(s: string, p: nat, ps: seq<Pair>, i: nat, pairs: seq<Pairs>, key: string)
    requires i < |ps| && AllPrintable(ps)
    requires Occurs(s, p, PrintFrom(ps, i)) && p + |PrintFrom(ps, i)| == |s|
    ensures ScanPairs(s, p, WKey, pairs, key)
         == if Room(ps, i, |pairs|) then Parsed(pairs + RawFrom(ps, i)) else Failed(NoRoom)
    decreases |ps| - i
  {
    hide Occurs, PrintPair, Printable, Raw, ScanPairs, PrintFrom, RawFrom, Short;
    var x := ps[i];
    PrintUnfold(ps, i);
    RawUnfold(ps, i);
    if i + 1 == |ps| {
      assert PrintPair(x) + "" == PrintPair(x);
      ScanLastPair(s, p, x, pairs, key);
    } else {
      ScanMiddlePair(s, p, x, PrintFrom(ps, i + 1), pairs, key);
      ScanPrinted(s, p + |PrintPair(x)| + 2, ps, i + 1, pairs + [Raw(x)], x.key);
      assert pairs + [Raw(x)] + RawFrom(ps, i + 1) == pairs + ([Raw(x)] + RawFrom(ps, i + 1));
    }
  }

  lemma {:induction false} RawUnfold(ps: seq<Pair>, i: nat)
    requires i < |ps|
    ensures RawFrom(ps, i) == [Raw(ps[i])] + RawFrom(ps, i + 1)
    ensures i + 1 == |ps| ==> RawFrom(ps, i) == [Raw(ps[i])]
  {
    hide Raw;
  }

  lemma {:induction false} PrintUnfold(ps: seq<Pair>, i: nat)
    requires i < |ps|
    ensures PrintFrom(ps, i) == PrintPair(ps[i]) + if i + 1 == |ps| then "" else ", " + PrintFrom(ps, i + 1)
  {
    hide PrintPair;
  }

  lemma {:induction false} AtEnd(s: string)
    ensures At(s, |s|) == '\0'
  {
  }

  lemma {:induction false} Delimiter(s: string, p: nat, pairs: seq<Pairs>, key: string)
    requires p <= |s|
    ensures At(s, p) == '\0' ==> ScanPairs(s, p, WDel, pairs, key) == Parsed(pairs)
    ensures At(s, p) == ',' ==> p < |s| && ScanPairs(s, p, WDel, pairs, key) == ScanPairs(s, p + 1, WKey, pairs, key)
  {
    hide ScanVal;
  }

  lemma {:induction false} SkipSpace(s: string, p: nat, pairs: seq<Pairs>, key: string)
    requires p < |s| && At(s, p) == ' '
    ensures ScanPairs(s, p, WKey, pairs, key) == ScanPairs(s, p + 1, WKey, pairs, key)
  {
    assert ScanVal(s, p, WaitVal, "", false, false) == ScanVal(s, p + 1, WaitVal, "", false, false);
    hide ScanVal;
  }

  lemma {:induction false} RawIsAbs(ps: seq<Pair>, i: nat)
    requires i <= |ps|
    ensures AbsAll(RawFrom(ps, i)) == ps[i..]
    decreases |ps| - i
  {
    hide AbsAll;
    if i < |ps| {
      RawIsAbs(ps, i + 1);
      var r := RawFrom(ps, i + 1);
      forall k | 0 <= k < |ps| - i ensures AbsAll(RawFrom(ps, i))[k] == ps[i + k] {
        if k > 0 { assert AbsAll(r)[k - 1] == ps[i + 1..][k - 1]; }
      }
    }
  }

  ghost predicate AllPrintable(ps: seq<Pair>) {
    forall j :: 0 <= j < |ps| ==> Printable(ps[j])
  }

  /** Parsing undoes printing: escapes, empty strings, null against the quoted
      word, and the empty list included; exactly as far as the parser has room. */
  lemma {:induction false} ParsePrint(ps: seq<Pair>)
    requires AllPrintable(ps)
    ensures ScanPairs(Print(ps), 0, WKey, [], "")
         == if Room(ps, 0, 0) then Parsed(RawFrom(ps, 0)) else Failed(NoRoom)
    ensures AbsAll(RawFrom(ps, 0)) == ps
  {
    RawIsAbs(ps, 0);
    if ps != [] {
      assert Occurs(Print(ps), 0, PrintFrom(ps, 0));
      hide ScanPairs, PrintFrom, Occurs, RawFrom, Printable;
      ScanPrinted(Print(ps), 0, ps, 0, [], "");
      assert [] + RawFrom(ps, 0) == RawFrom(ps, 0);
    }
  }

  // ------------------------------------------- printing is unambiguous

  /** The end of a quoted word can be told from its escaped quotes. */
  lemma {:induction false} EscapeEnds(a: string, b: string, x: string, y: string)
    requires Escape(a) + ("\"" + x) == Escape(b) + ("\"" + y)
    ensures a == b && x == y
  {
    var s := Escape(a) + ("\"" + x);
    EscapeHead(a, x);
    EscapeHead(b, y);
    hide Escape;
    if a != "" && b != "" {
      assert a[0] == b[0];
      EscapeEnds(a[1..], b[1..], x, y);
      assert a == [a[0]] + a[1..] && b == [b[0]] + b[1..];
    }
  }

  /** How the text of a quoted word begins, and what follows that. */
  lemma {:induction false} EscapeHead(a: string, x: string)
    ensures var s := Escape(a) + ("\"" + x);
      if a == "" then s != "" && s[0] == '"' && s[1..] == x
      else if a[0] == '"' || a[0] == '\\'
      then |s| >= 2 && s[0] == '\\' && s[1] == a[0] && s[2..] == Escape(a[1..]) + ("\"" + x)
      else s != "" && s[0] == a[0] && s[0] != '"' && s[0] != '\\' && s[1..] == Escape(a[1..]) + ("\"" + x)
  {
  }

  lemma {:induction false} SameRest(head: string, x: string, y: string)
    requires head + x == head + y
    ensures x == y
  {
    assert x == (head + x)[|head|..] && y == (head + y)[|head|..];
  }

  lemma {:induction false} ValueEnds(v: Option<string>, w: Option<string>, x: string, y: string)
    requires PrintValue(v) + x == PrintValue(w) + y
    ensures v == w && x == y
  {
    hide Escape, PrintValue;
    ValueHead(v, x);
    ValueHead(w, y);
    if v.None? {
      SameRest("NULL", x, y);
    } else {
      SameRest("\"", Escape(v.value) + ("\"" + x), Escape(w.value) + ("\"" + y));
      EscapeEnds(v.value, w.value, x, y);
    }
  }

  lemma {:induction false} ValueHead(v: Option<string>, x: string)
    ensures v.None? ==> PrintValue(v) + x == "NULL" + x && (PrintValue(v) + x)[0] == 'N'
    ensures v.Some? ==> PrintValue(v) + x == "\"" + (Escape(v.value) + ("\"" + x)) && (PrintValue(v) + x)[0] == '"'
  {
    hide Escape;
    if v.Some? {
      Around(Escape(v.value), x);
    }
  }

  lemma {:induction false} Around(t: string, x: string)
    ensures "\"" + t + "\"" + x == "\"" + (t + ("\"" + x))
  {
  }

  lemma {:induction false} PairEnds(p: Pair, q: Pair, x: string, y: string)
    requires PrintPair(p) + x == PrintPair(q) + y
    ensures p == q && x == y
  {
    hide Escape, PrintValue;
    var a, b := "=>" + (PrintValue(p.val) + x), "=>" + (PrintValue(q.val) + y);
    assert PrintPair(p) + x == "\"" + (Escape(p.key) + ("\"" + a));
    assert PrintPair(q) + y == "\"" + (Escape(q.key) + ("\"" + b));
    SameRest("\"", Escape(p.key) + ("\"" + a), Escape(q.key) + ("\"" + b));
    EscapeEnds(p.key, q.key, a, b);
    SameRest("=>", PrintValue(p.val) + x, PrintValue(q.val) + y);
    ValueEnds(p.val, q.val, x, y);
  }

  lemma {:induction false} PrintUnique(ps: seq<Pair>, i: nat, qs: seq<Pair>, j: nat)
    requires i <= |ps| && j <= |qs| && PrintFrom(ps, i) == PrintFrom(qs, j)
    ensures ps[i..] == qs[j..]
    decreases |ps| - i
  {
    hide PrintPair, PrintFrom;
    if i == |ps| || j == |qs| {
      PrintSomething(ps, i);
      PrintSomething(qs, j);
    } else {
      PrintUnfold(ps, i);
      PrintUnfold(qs, j);
      var x := if i + 1 == |ps| then "" else ", " + PrintFrom(ps, i + 1);
      var y := if j + 1 == |qs| then "" else ", " + PrintFrom(qs, j + 1);
      PairEnds(ps[i], qs[j], x, y);
      if i + 1 < |ps| {
        SameRest(", ", PrintFrom(ps, i + 1), PrintFrom(qs, j + 1));
        PrintUnique(ps, i + 1, qs, j + 1);
      }
      FirstOf(ps, i);
      FirstOf(qs, j);
    }
  }

  lemma {:induction false} FirstOf<T>(s: seq<T>, i: nat)
    requires i < |s|
    ensures s[i..] == [s[i]] + s[i + 1..]
  {
  }

  lemma {:induction false} PrintSomething(ps: seq<Pair>, i: nat)
    requires i <= |ps|
    ensures PrintFrom(ps, i) == "" <==> i == |ps|
  {
  }

  /** Two values that print alike are the same value, byte for byte. */
  lemma {:induction false} PrintDetermines(h: HStore, g: HStore)
    requires h.Canonical() && g.Canonical() && Print(h.Decode()) == Print(g.Decode())
    ensures h == g
  {
    hide Pack, Fits, PrintFrom, HStore.Decode, HStore.Layout, HStore.NullsTidy;
    var ps, qs := h.Decode(), g.Decode();
    PrintUnique(ps, 0, qs, 0);
    assert ps[0..] == ps && qs[0..] == qs;
    TidyIsPack(h);
    TidyIsPack(g);
  }

  // ----------------------------------------------------------- hstore_in

  datatype In = Value(h: HStore) | BadText(e: ParseError) | NoMemory

  /** `hstore_in`: parse, drop duplicate keys, pack.  Reading back what
      `hstore_out` printed gives the identical value, exactly as far as the parser
      has room. */
  method HstoreIn(text: string) returns (r: In)
    ensures var parse := ScanPairs(text, 0, WKey, [], "");
      && (r.BadText? <==> parse.Failed? && parse.e != NoRoom) && (r.BadText? ==> r.e == parse.e)
      && (r.Value? ==> parse.Parsed? && r.h.Canonical())
      && (r.Value? ==> exists kept :: Distilled(kept, parse.pairs) && r.h.Decode() == AbsAll(kept))
      && (r.NoMemory? && parse.Parsed? ==> exists kept :: Distilled(kept, parse.pairs) && !Fits(AbsAll(kept)))
    ensures forall ps :: AllPrintable(ps) && StrictKeys(ps) && Fits(ps) && text == Print(ps) ==>
      r == if Room(ps, 0, 0) then Value(Pack(ps)) else NoMemory
  {
    hide ScanPairs, Distilled, AbsAll, Chars, StrictKeys, Fits, Pack, AllPrintable, Print, Room;
    var parser := new HSParser(text);
    var parse := parser.ParsePairs();
    forall ps | AllPrintable(ps) && text == Print(ps)
      ensures if Room(ps, 0, 0) then parse.Parsed? && AbsAll(parse.pairs) == ps else parse == Failed(NoRoom)
    {
      ParsePrint(ps);
    }
    if parse.Failed? {
      return if parse.e == NoRoom then NoMemory else BadText(parse.e);
    }
    var list := parser.pairs;
    var a := new Pairs[|list|](i requires 0 <= i < |list| => list[i]);
    assert a[..] == list;
    var n, buflen := UniquePairs(a);
    var kept := a[..n];
    var packed := PackPairs(kept, buflen);
    DistilledStrict(kept, list);
    if StrictKeys(AbsAll(list)) { DistilStrict(kept, list); }
    if packed.TooBig? {
      return NoMemory;
    }
    DecodePack(AbsAll(kept));
    return Value(packed.value);
  }
}
