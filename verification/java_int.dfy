/**
 Java's fixed-width integers. The count-merge operator accumulates with Java
 `int` addition, which silently wraps modulo 2^32; this module makes that
 wrap-around explicit so that the merge model can state exactly what it sums.
 */
module JavaInt {

  const TWO_31: int := 0x8000_0000
  const TWO_32: int := 0x1_0000_0000

  /** Java `int`: 32-bit two's complement. */
  newtype int32 = x: int | -0x8000_0000 <= x < 0x8000_0000

  /** Java `long`: 64-bit two's complement (the time column of a block). */
  newtype int64 = x: int | -0x8000_0000_0000_0000 <= x < 0x8000_0000_0000_0000

  /** Equality modulo 2^32: the relation Java `int` arithmetic preserves. */
  predicate Congruent(x: int, y: int)
  {
    (x - y) % TWO_32 == 0
  }

  lemma CongruentTransitive(x: int, y: int, z: int)
    requires Congruent(x, y) && Congruent(y, z)
    ensures Congruent(x, z)
  {
    var q1 := (x - y) / TWO_32;
    var q2 := (y - z) / TWO_32;
    assert x - y == q1 * TWO_32;
    assert y - z == q2 * TWO_32;
    assert x - z == (q1 + q2) * TWO_32;
  }

  lemma CongruentShift(x: int, y: int, d: int)
    requires Congruent(x, y)
    ensures Congruent(x + d, y + d)
  {
    assert (x + d) - (y + d) == x - y;
  }

  /** Two Java `int`s that agree modulo 2^32 are the same `int`. */
  lemma CongruentInt32Equal(a: int32, b: int32)
    requires Congruent(a as int, b as int)
    ensures a == b
  {
    var d := a as int - b as int;
    var q := d / TWO_32;
    assert d == q * TWO_32;
  }

  /**
   The narrowing of an unbounded integer to Java `int`: the unique `int`
   congruent to x modulo 2^32, which is x itself when x already fits.
   */
  function Wrap(x: int): (r: int32)
    ensures Congruent(x, r as int)
    ensures -TWO_31 <= x < TWO_31 ==> r as int == x
  {
    var m := (x + TWO_31) % TWO_32;
    assert x - (m - TWO_31) == ((x + TWO_31) / TWO_32) * TWO_32;
    (m - TWO_31) as int32
  }

  /** Wrap only depends on its argument's residue modulo 2^32. */
  lemma WrapCongruent(x: int, y: int)
    requires Congruent(x, y)
    ensures Wrap(x) == Wrap(y)
  {
    var rx, ry := Wrap(x), Wrap(y);
    assert Congruent(rx as int, x) by {
      assert rx as int - x == -(x - rx as int);
    }
    CongruentTransitive(rx as int, x, y);
    CongruentTransitive(rx as int, y, ry as int);
    CongruentInt32Equal(rx, ry);
  }

  /** Java `a + b` on two `int` operands. */
  function Add(a: int32, b: int32): (r: int32)
    ensures Congruent(a as int + b as int, r as int)
    ensures -TWO_31 <= a as int + b as int < TWO_31 ==> r as int == a as int + b as int
  {
    Wrap(a as int + b as int)
  }

  /**
   Accumulating with wrapping `int` addition gives the wrap of the exact sum:
   a running Java `int` total never drifts from the true total modulo 2^32.
   */
  lemma AddOfWrap(x: int, y: int)
    ensures Add(Wrap(x), Wrap(y)) == Wrap(x + y)
  {
    var wx, wy := Wrap(x), Wrap(y);
    assert Congruent(x + y, wx as int + y) by {
      CongruentShift(x, wx as int, y);
    }
    assert Congruent(wx as int + y, wx as int + wy as int) by {
      CongruentShift(y, wy as int, wx as int);
      assert wx as int + y == y + wx as int;
      assert wx as int + wy as int == wy as int + wx as int;
    }
    CongruentTransitive(x + y, wx as int + y, wx as int + wy as int);
    WrapCongruent(x + y, wx as int + wy as int);
  }
}
