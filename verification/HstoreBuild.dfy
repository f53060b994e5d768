/** Building a packed hstore in place: entries are written from the front of
    the memory block, text behind the room reserved for a provisional number of
    entries, and the text moves down once the real number is known. */
module HstoreBuild {
  import opened Common
  import opened HstoreLayout

  /** A memory cell: a 32-bit entry or a byte of text. */
  datatype Cell = Entry(w: int) | Byte(b: char)

  /** The words w lie at the front of m and the text s at cell base. */
  ghost predicate Holds(m: seq<Cell>, base: int, w: seq<int>, s: string) {
    |w| <= base && base + |s| <= |m|
    && (forall k :: 0 <= k < |w| ==> m[k] == Entry(w[k]))
    && (forall k :: 0 <= k < |s| ==> m[base + k] == Byte(s[k]))
  }

  /** The bytes of s lie at cell at. */
  ghost predicate Spells(m: seq<Cell>, at: int, s: string) {
    0 <= at && at + |s| <= |m| && forall k :: 0 <= k < |s| ==> m[at + k] == Byte(s[k])
  }

  /** m' agrees with m on the first n cells and from lo up to hi. */
  ghost predicate Same(m: seq<Cell>, m': seq<Cell>, n: int, lo: int, hi: int) {
    |m'| == |m| && forall k :: 0 <= k < |m| && (k < n || lo <= k < hi) ==> m'[k] == m[k]
  }

  lemma {:induction false} HoldsMore(
    m: seq<Cell>, m': seq<Cell>, base: int, w: seq<int>, s: string, t: string, x: int, y: int)
    requires Holds(m, base, w, s) && |w| + 2 <= base && base + |s| + |t| <= |m|
    requires Same(m, m', |w|, base, base + |s|)
    requires m'[|w|] == Entry(x) && m'[|w| + 1] == Entry(y)
    requires Spells(m', base + |s|, t)
    ensures Holds(m', base, w + [x, y], s + t)
  {
    forall k | 0 <= k < |s + t| ensures m'[base + k] == Byte((s + t)[k]) {
      if k >= |s| { assert m'[base + |s| + (k - |s|)] == Byte(t[k - |s|]); }
    }
  }

  lemma {:induction false} SpellsBoth(m: seq<Cell>, m': seq<Cell>, at: int, s: string, t: string)
    requires Spells(m, at, s) && |m'| == |m| && Spells(m', at + |s|, t)
    requires forall k :: at <= k < at + |s| ==> m'[k] == m[k]
    ensures Spells(m', at, s + t)
  {
    forall k | 0 <= k < |s + t| ensures m'[at + k] == Byte((s + t)[k]) {
      if k >= |s| { assert m'[at + |s| + (k - |s|)] == Byte(t[k - |s|]); }
    }
  }

  class Builder {
    const mem: array<Cell>
    const prov: nat
    var ed: nat
    var pd: nat
    ghost var done: seq<Pair>

    ghost predicate Valid()
      reads this, mem
    {
      && ed == 2 * |done| && pd == 2 * prov + |Chars(done)|
      && mem.Length < 2 * prov + ISNULL
      && Holds(mem[..], 2 * prov, Words(done), Chars(done))
    }

    constructor (count: nat, room: nat)
      requires room < ISNULL
      ensures Valid() && fresh(mem) && done == [] && prov == count && mem.Length == 2 * count + room
    {
      mem := new Cell[2 * count + room](k => Byte('\0'));
      prov := count;
      ed, pd := 0, 2 * count;
      done := [];
    }

    /** memcpy of a run of bytes to the text cursor. */
    method PutText(src: string)
      requires 2 * prov <= pd && pd + |src| <= mem.Length
      modifies mem, this`pd
      ensures pd == old(pd) + |src|
      ensures forall k :: 0 <= k < mem.Length && !(old(pd) <= k < pd) ==> mem[k] == old(mem[k])
      ensures Spells(mem[..], old(pd), src)
    {
      forall k | 0 <= k < |src| {
        mem[pd + k] := Byte(src[k]);
      }
      pd := pd + |src|;
    }

    /** `(dent_)++->entry = w` */
    method PutEntry(w: int)
      requires ed < 2 * prov <= mem.Length
      modifies mem, this`ed
      ensures ed == old(ed) + 1 && mem[..] == old(mem[..])[old(ed) := Entry(w)]
    {
      mem[ed] := Entry(w);
      ed := ed + 1;
    }

    /** Two fresh words and fresh text behind what the block already holds. */
    ghost method Extend(m: seq<Cell>, p: Pair)
      requires Holds(m, 2 * prov, Words(done), Chars(done)) && |m| == mem.Length < 2 * prov + ISNULL
      requires 2 * |done| + 2 <= 2 * prov && 2 * prov + |Chars(done)| + |p.Text()| <= mem.Length
      requires Same(m, mem[..], 2 * |done|, 2 * prov, 2 * prov + |Chars(done)|)
      requires mem[2 * |done|] == Entry(PairWords(done, p)[0]) && mem[2 * |done| + 1] == Entry(PairWords(done, p)[1])
      requires Spells(mem[..], 2 * prov + |Chars(done)|, p.Text())
      requires ed == 2 * |done| + 2 && pd == 2 * prov + |Chars(done)| + |p.Text()|
      modifies this`done
      ensures Valid() && done == old(done) + [p]
    {
      hide Words, Chars, Holds, Same, Spells;
      Snoc(done, p);
      HoldsMore(m, mem[..], 2 * prov, Words(done), Chars(done), p.Text(), PairWords(done, p)[0], PairWords(done, p)[1]);
      done := done + [p];
    }

    /** HS_COPYITEM: the bytes of a key and its value, contiguous at sptr. */
    method CopyItem(src: string, sptr: nat, klen: nat, vlen: nat, vnull: bool, ghost p: Pair)
      requires Valid() && ed + 2 <= 2 * prov && pd + klen + vlen <= mem.Length
      requires sptr + klen + vlen <= |src|
      requires p.Text() == src[sptr..sptr + klen + vlen] && |p.key| == klen && vnull == p.val.None?
      modifies this, mem
      ensures Valid() && done == old(done) + [p]
    {
      hide Words, Chars, Holds;
      HoldsRoom(mem[..], 2 * prov, Words(done), Chars(done));
      ghost var m := mem[..];
      PutText(src[sptr..sptr + klen + vlen]);
      PutEntry((pd - 2 * prov - vlen) % ISNULL);
      PutEntry((pd - 2 * prov) % ISNULL + if vnull then ISNULL else 0);
      Extend(m, p);
    }

    /** HS_ADDITEM: a key and, unless null, its value. */
    method AddItem(key: string, val: string, isnull: bool)
      requires Valid() && ed + 2 <= 2 * prov
      requires pd + |key| + (if isnull then 0 else |val|) <= mem.Length
      modifies this, mem
      ensures Valid() && done == old(done) + [Pair(key, if isnull then None else Some(val))]
    {
      hide Words, Chars, Holds;
      HoldsRoom(mem[..], 2 * prov, Words(done), Chars(done));
      ghost var p := Pair(key, if isnull then None else Some(val));
      ghost var m, n := mem[..], pd;
      PutText(key);
      PutEntry((pd - 2 * prov) % ISNULL);
      if isnull {
        PutEntry((pd - 2 * prov) % ISNULL + ISNULL);
      } else {
        ghost var m1 := mem[..];
        PutText(val);
        PutEntry((pd - 2 * prov) % ISNULL);
        SpellsBoth(m1, mem[..], n, key, val);
      }
      Extend(m, p);
    }

    /** HS_FINALIZE: flag the first entry, close the gap left by entries that
        were not used, and set the exact size. */
    method Finalize(count: nat) returns (h: HStore)
      requires Valid() && count == |done| && count < COUNT_LIMIT
      modifies mem
      ensures h == Pack(done)
    {
      hide Words, Chars, Holds, Flagged, Moved, WordsOf, TextOf;
      HoldsRoom(mem[..], 2 * prov, Words(done), Chars(done));
      HoldsFlagged(mem[..], 2 * prov, Words(done), Chars(done));
      var buf := 2 * prov;
      var buflen := pd - buf;
      if count > 0 {
        FlagFirst();
      }
      ghost var m := mem[..];
      if count != prov {
        MoveText(2 * count, buf, buflen);
      }
      HoldsMoved(m, mem[..], buf, Flagged(Words(done)), Chars(done));
      h := Read(mem[..], count, buflen);
    }

    /** `ARRPTR(hsp_)[0].entry |= HENTRY_ISFIRST` */
    method FlagFirst()
      requires 0 < mem.Length && mem[0].Entry?
      modifies mem
      ensures mem[..] == old(mem[..])[0 := Entry(old(mem[0]).w + ISFIRST)]
    {
      mem[0] := Entry(mem[0].w + ISFIRST);
    }

    /** memmove of the text to its final place. */
    method MoveText(to: nat, buf: nat, n: nat)
      requires to <= buf && buf + n <= mem.Length
      modifies mem
      ensures Moved(old(mem[..]), mem[..], to, buf, n)
    {
      forall k | 0 <= k < n {
        mem[to + k] := mem[buf + k];
      }
    }
  }

  ghost predicate Moved(m: seq<Cell>, m': seq<Cell>, to: int, buf: int, n: int) {
    |m'| == |m| && 0 <= to <= buf && 0 <= n && buf + n <= |m|
    && m'[..to] == m[..to] && m'[to..to + n] == m[buf..buf + n]
  }

  /** The finished value as later readers see the block. */
  function Read(m: seq<Cell>, count: nat, buflen: nat): HStore
    requires 2 * count + buflen <= |m|
  {
    HStore(CalcDataSize(count, buflen), count + NEWVERSION, WordsOf(m[..2 * count]),
           TextOf(m[2 * count..2 * count + buflen]))
  }

  lemma {:induction false} HoldsFlagged(m: seq<Cell>, base: int, w: seq<int>, s: string)
    requires Holds(m, base, w, s)
    ensures |Flagged(w)| == |w|
    ensures w == [] ==> Holds(m, base, Flagged(w), s)
    ensures w != [] ==> m[0].Entry? && Holds(m[0 := Entry(m[0].w + ISFIRST)], base, Flagged(w), s)
  {
  }

  /** After the text has moved down to just behind the words, reading the block
      gives the words and the text. */
  lemma {:induction false} HoldsMoved(m: seq<Cell>, m': seq<Cell>, base: int, w: seq<int>, s: string)
    requires Holds(m, base, w, s) && (Moved(m, m', |w|, base, |s|) || (m' == m && |w| == base))
    ensures WordsOf(m'[..|w|]) == w && TextOf(m'[|w|..|w| + |s|]) == s
  {
    hide WordsOf, TextOf;
    forall k | 0 <= k < |s| ensures m'[|w|..|w| + |s|][k] == Byte(s[k]) {
      assert m[base..base + |s|][k] == m[base + k] == Byte(s[k]);
    }
    forall k | 0 <= k < |w| ensures m'[..|w|][k] == Entry(w[k]) {
      assert m[..|w|][k] == m[k];
    }
  }

  lemma {:induction false} HoldsRoom(m: seq<Cell>, base: int, w: seq<int>, s: string)
    requires Holds(m, base, w, s)
    ensures |w| <= base && base + |s| <= |m|
  {
  }

  function WordsOf(m: seq<Cell>): (w: seq<int>)
    ensures |w| == |m| && forall k :: 0 <= k < |w| && m[k].Entry? ==> w[k] == m[k].w
  {
    if m == [] then [] else [if m[0].Entry? then m[0].w else 0] + WordsOf(m[1..])
  }

  function TextOf(m: seq<Cell>): (s: string)
    ensures |s| == |m| && forall k :: 0 <= k < |s| && m[k].Byte? ==> s[k] == m[k].b
  {
    if m == [] then [] else [if m[0].Byte? then m[0].b else '\0'] + TextOf(m[1..])
  }
}
