/** The machine integers of the C code.  The build passes -fwrapv, so signed
    32-bit arithmetic wraps around instead of being undefined. */
module Int32 {

  const MIN := -0x8000_0000
  const MAX := 0x7fff_ffff

  predicate IsInt32(x: int) {
    MIN <= x <= MAX
  }

  /** The 32-bit two's complement value a C `int` holds after computing x. */
  function Wrap(x: int): (r: int)
    ensures IsInt32(r)
    ensures IsInt32(x) ==> r == x
    ensures MAX < x <= MAX + 0x1_0000_0000 ==> r == x - 0x1_0000_0000
  {
    (x - MIN) % 0x1_0000_0000 + MIN
  }

  /** A sum may be wrapped at every step or once at the end. */
  lemma {:induction false} WrapSum(x: int, y: int)
    ensures Wrap(Wrap(x) + y) == Wrap(x + y)
  {
    WrapApart(x);
    WrapSame(Wrap(x) + y, x + y, (x - Wrap(x)) / 0x1_0000_0000);
  }

  /** Wrapping takes off a multiple of 2^32. */
  lemma {:induction false} WrapApart(x: int)
    ensures x - Wrap(x) == (x - Wrap(x)) / 0x1_0000_0000 * 0x1_0000_0000
  {
    var q := (x - MIN) / 0x1_0000_0000;
    assert x - Wrap(x) == q * 0x1_0000_0000;
  }

  lemma {:induction false} WrapSame(x: int, y: int, q: int)
    requires y - x == q * 0x1_0000_0000
    ensures Wrap(x) == Wrap(y)
  {
    SameRemainder(x - MIN, y - MIN, q, 0x1_0000_0000);
  }

  lemma {:induction false} SameRemainder(x: int, y: int, q: int, d: int)
    requires d > 0 && y - x == q * d
    ensures x % d == y % d
  {
    var a, b := x / d, y / d;
    assert x == a * d + x % d && y == b * d + y % d;
    assert (b - a - q) * d == x % d - y % d;
    if b - a - q != 0 {
      AtLeastOnce(b - a - q, d);
    }
  }

  lemma {:induction false} AtLeastOnce(e: int, d: int)
    requires e != 0 && d > 0
    ensures e * d >= d || e * d <= -d
  {
    if e > 0 {
      assert (e - 1) * d >= 0;
    } else {
      assert (-e - 1) * d >= 0;
    }
  }

  /** A size is accepted by its remainder. */
  lemma {:induction false} WrapMod(x: int, limit: int)
    requires 0 <= limit <= MAX
    ensures 0 <= Wrap(x) <= limit <==> x % 0x1_0000_0000 <= limit
  {
    var m := x % 0x1_0000_0000;
    WrapSame(m, x, x / 0x1_0000_0000);
  }

  ghost predicate AllInt32(a: seq<int>) {
    forall i :: 0 <= i < |a| ==> IsInt32(a[i])
  }
}
