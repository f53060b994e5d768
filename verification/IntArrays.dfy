/** One-dimensional integer arrays in memory: their size is computed in an int,
    so that a block can be refused, or granted and too short. */
module IntArrays {
  import opened Common
  import opened Int32

  /** The header of an array. */
  const ARRAY_OVERHEAD := 24

  /** The most elements an array can have. */
  const MAX_ELEMS := 268435449

  /** The most elements of an array that can be doubled. */
  const MAX_DOUBLED := 134217724

  /** How work on a key can end: the allocation is refused, the block is too short
      for what is written, the loop does not end, one cell past the key is read, or
      a key results. */
  datatype Ending = TooBig | Overrun | Endless | ReadsPast | Key(elems: seq<int>)

  /** The `int` that is passed to the allocator for an array of that many elements. */
  function Bytes(num: int): int {
    Wrap(ARRAY_OVERHEAD + 4 * num)
  }

  /** The allocator takes the size, which counts n elements in 32 bits. */
  ghost predicate Granted(n: int) {
    (ARRAY_OVERHEAD + 4 * n) % 0x1_0000_0000 <= MAX_ALLOC
  }

  /** The array of n elements is small enough to be allocated in full. */
  ghost predicate Sized(n: int) {
    ARRAY_OVERHEAD + 4 * n <= MAX_ALLOC
  }

  /** What becomes of work that first allocates an array of n elements, and cannot
      fail otherwise. */
  ghost predicate Allotted(n: nat, out: Ending) {
    (out.TooBig? <==> !Granted(n)) && (out.Overrun? <==> Granted(n) && !Sized(n)) && (out.Key? <==> Sized(n))
  }

  lemma {:induction false} SizedGranted(n: nat)
    ensures Sized(n) <==> n <= MAX_ELEMS
    ensures Sized(n) ==> Granted(n)
  {
  }

  /** An array that exists can be doubled exactly up to half the limit; the size of
      a longer one does not wrap around. */
  lemma {:induction false} DoubledIff(n: nat)
    requires n <= MAX_ELEMS
    ensures Granted(2 * n) <==> n <= MAX_DOUBLED
    ensures Sized(2 * n) <==> n <= MAX_DOUBLED
  {
  }

  lemma {:induction false} BytesIff(n: nat)
    ensures 0 <= Bytes(Wrap(n)) <= MAX_ALLOC <==> Granted(n)
    ensures Sized(n) ==> Granted(n) && Bytes(Wrap(n)) == ARRAY_OVERHEAD + 4 * n
    ensures Granted(n) && !Sized(n) ==> Bytes(Wrap(n)) < ARRAY_OVERHEAD + 4 * n
    ensures Bytes(Wrap(n)) % 4 == 0
  {
    hide Wrap;
    WrapApart(n);
    WrapSame(ARRAY_OVERHEAD + 4 * Wrap(n), ARRAY_OVERHEAD + 4 * n, 4 * ((n - Wrap(n)) / 0x1_0000_0000));
    WrapMod(ARRAY_OVERHEAD + 4 * n, MAX_ALLOC);
    MultipleOfFour(ARRAY_OVERHEAD + 4 * n);
  }

  lemma {:induction false} MultipleOfFour(x: int)
    requires x % 4 == 0
    ensures Wrap(x) % 4 == 0
  {
    WrapApart(x);
    var q := (x - Wrap(x)) / 0x1_0000_0000;
    SameRemainder(Wrap(x), x, q * 0x4000_0000, 4);
  }

  /** `new_intArrayType`, and `resize_intArrayType` when it allocates: how many
      elements the block has room for, if any is granted.  For n elements it has
      room exactly when they are few enough. */
  method Allocate(num: int, ghost n: nat) returns (cells: Option<int>)
    requires num == Wrap(n)
    ensures cells.None? <==> !Granted(n)
    ensures cells.Some? ==> cells.value <= n && (cells.value == n <==> Sized(n))
  {
    hide Wrap, Granted, Sized, Bytes;
    var nbytes := Bytes(num);
    BytesIff(n);
    if !(0 <= nbytes <= MAX_ALLOC) {
      return None;
    }
    CellsIff(n, nbytes);
    return Some((nbytes - ARRAY_OVERHEAD) / 4);
  }

  lemma {:induction false} CellsIff(n: nat, nbytes: int)
    requires 0 <= nbytes <= MAX_ALLOC && nbytes % 4 == 0
    requires Sized(n) ==> nbytes == ARRAY_OVERHEAD + 4 * n
    requires !Sized(n) ==> nbytes < ARRAY_OVERHEAD + 4 * n
    ensures (nbytes - ARRAY_OVERHEAD) / 4 <= n
    ensures (nbytes - ARRAY_OVERHEAD) / 4 == n <==> Sized(n)
  {
  }
}
