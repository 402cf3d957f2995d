/** The 32-bit two's-complement `int` of C#, as far as the session codec uses it:
    unchecked conversion, left shift and bitwise OR. */
module Int32 {

  const TWO31: int := 0x8000_0000
  const TWO32: int := 0x1_0000_0000

  type int32 = x: int | -0x8000_0000 <= x < 0x8000_0000

  function Pow2(n: nat): (r: nat)
    ensures r >= 1
  {
    if n == 0 then 1 else 2 * Pow2(n - 1)
  }

  /** Reinterprets the low 32 bits of `x` as a signed value (an unchecked C# conversion). */
  function Wrap(x: int): (r: int32)
    ensures 0 <= x < TWO31 ==> r == x
  {
    (x + TWO31) % TWO32 - TWO31
  }

  /** The unsigned reading of the 32-bit pattern of `x`. */
  function Bits(x: int32): (u: nat)
    ensures u < TWO32
    ensures 0 <= x ==> u == x
  {
    x % TWO32
  }

  /** Bitwise OR of two naturals, one binary digit at a time. */
  function OrNat(x: nat, y: nat): nat
    decreases x + y
  {
    if x == 0 then y
    else if y == 0 then x
    else 2 * OrNat(x / 2, y / 2) + (if x % 2 == 1 || y % 2 == 1 then 1 else 0)
  }

  /** C#'s `x << n` on `int`, for shift counts below 32: the low 32 bits of x * 2^n.
      The byte-multiple counts the codec uses have their factor spelled out. */
  function Shl(x: int32, n: nat): int32
    requires n < 32
  {
    Wrap(x * ShiftFactor(n))
  }

  function ShiftFactor(n: nat): nat
    requires n < 32
  {
    if n == 0 then 1
    else if n == 8 then 0x100
    else if n == 16 then 0x1_0000
    else if n == 24 then 0x100_0000
    else Pow2(n)
  }

  /** The spelled-out shift factors are the powers of two. */
  lemma ShiftFactorIsPow2(n: nat)
    requires n < 32
    ensures ShiftFactor(n) == Pow2(n)
  {
    Pow2Values();
  }

  /** C#'s `x | y` on `int`. */
  function Or(x: int32, y: int32): int32 {
    Wrap(OrNat(Bits(x), Bits(y)))
  }

  lemma Pow2Values()
    ensures Pow2(8) == 0x100 && Pow2(16) == 0x1_0000 && Pow2(24) == 0x100_0000 && Pow2(32) == TWO32
  {
    assert Pow2(8) == 0x100;
    assert Pow2(16) == 0x100 * Pow2(8) by { Pow2Add(8, 8); }
    assert Pow2(24) == 0x100 * Pow2(16) by { Pow2Add(8, 16); }
    assert Pow2(32) == 0x100 * Pow2(24) by { Pow2Add(8, 24); }
  }

  lemma {:induction false} Pow2Add(a: nat, b: nat)
    ensures Pow2(a + b) == Pow2(a) * Pow2(b)
  {
    if a > 0 {
      Pow2Add(a - 1, b);
      assert Pow2(a + b) == 2 * Pow2(a - 1 + b);
    }
  }

  /** `Wrap` keeps a value's residue modulo 2^32: only the low 32 bits survive. */
  lemma WrapCongruent(x: int)
    ensures (Wrap(x) - x) % TWO32 == 0
    ensures Bits(Wrap(x)) == x % TWO32
  {
    var q := (x + TWO31) / TWO32;
    assert Wrap(x) == x - q * TWO32;
    assert Wrap(x) - x == -q * TWO32;
    assert x - q * TWO32 == (x / TWO32 - q) * TWO32 + x % TWO32;
  }

  /** OR-ing a value whose low `k` bits are clear with one that fits in `k` bits is addition. */
  lemma {:induction false} OrNatDisjoint(a: nat, k: nat, b: nat)
    requires b < Pow2(k)
    ensures OrNat(a * Pow2(k), b) == a * Pow2(k) + b
  {
    var x := a * Pow2(k);
    if k == 0 {
      assert b == 0;
    } else if x == 0 || b == 0 {
    } else {
      var h := Pow2(k - 1);
      assert Pow2(k) == 2 * h;
      assert x == 2 * (a * h);
      assert x / 2 == a * h && x % 2 == 0;
      assert b / 2 < h;
      OrNatDisjoint(a, k - 1, b / 2);
    }
  }

  /** OR with an all-ones pattern of width `n` yields all ones. */
  lemma {:induction false} OrNatAllOnes(n: nat, y: nat)
    requires y < Pow2(n)
    ensures OrNat(y, Pow2(n) - 1) == Pow2(n) - 1
  {
    if n == 0 || y == 0 {
    } else {
      var h := Pow2(n - 1);
      assert Pow2(n) == 2 * h;
      assert (Pow2(n) - 1) / 2 == h - 1 && (Pow2(n) - 1) % 2 == 1;
      OrNatAllOnes(n - 1, y / 2);
    }
  }

  /** `x | -1 == -1`: OR with the all-ones pattern absorbs the other operand. */
  lemma OrMinusOne(x: int32)
    ensures Or(x, -1) == -1
  {
    Pow2Values();
    OrNatAllOnes(32, Bits(x));
  }

  /** Two 32-bit patterns whose OR adds them OR together, through the signed reading. */
  lemma OrOfWrapped(h: nat, b: nat)
    requires h < TWO32 && b < TWO32 && OrNat(h, b) == h + b
    ensures Or(Wrap(h), Wrap(b)) == Wrap(h + b)
  {
    WrapBits(h);
    WrapBits(b);
  }

  /** The unsigned reading undoes `Wrap` on a 32-bit pattern. */
  lemma WrapBits(h: nat)
    requires h < TWO32
    ensures Bits(Wrap(h)) == h
  {
    WrapCongruent(h);
  }

  /** `(a << 8) | b == a * 2^8 + b` (before wrap-around) when `b` fits in the eight
      cleared bits; likewise for the other byte-aligned shifts the codec uses. */
  lemma OrShifted8(a: nat, b: nat)
    requires (a + 1) * 0x100 <= TWO32 && b < 0x100
    ensures Or(Wrap(a * 0x100), Wrap(b)) == Wrap(a * 0x100 + b)
  {
    Pow2Values();
    assert OrNat(a * 0x100, b) == a * 0x100 + b by {
      OrNatDisjoint(a, 8, b);
    }
    OrOfWrapped(a * 0x100, b);
  }

  lemma OrShifted16(a: nat, b: nat)
    requires (a + 1) * 0x1_0000 <= TWO32 && b < 0x1_0000
    ensures Or(Wrap(a * 0x1_0000), Wrap(b)) == Wrap(a * 0x1_0000 + b)
  {
    Pow2Values();
    assert OrNat(a * 0x1_0000, b) == a * 0x1_0000 + b by {
      OrNatDisjoint(a, 16, b);
    }
    OrOfWrapped(a * 0x1_0000, b);
  }

  lemma OrShifted24(a: nat, b: nat)
    requires (a + 1) * 0x100_0000 <= TWO32 && b < 0x100_0000
    ensures Or(Wrap(a * 0x100_0000), Wrap(b)) == Wrap(a * 0x100_0000 + b)
  {
    Pow2Values();
    assert OrNat(a * 0x100_0000, b) == a * 0x100_0000 + b by {
      OrNatDisjoint(a, 24, b);
    }
    OrOfWrapped(a * 0x100_0000, b);
  }
}
