/** The bitwise operators of C# on non-negative integers, defined bit by bit. */
module Bits {
  import opened Machine

  function Pow2(n: nat): (r: nat)
    ensures r >= 1
  {
    if n == 0 then 1 else 2 * Pow2(n - 1)
  }

  lemma Pow2Values()
    ensures Pow2(8) == 0x100 && Pow2(24) == 0x100_0000
  {
    assert Pow2(4) == 0x10;
    assert Pow2(8) == 0x100;
    assert Pow2(12) == 0x1000;
    assert Pow2(16) == 0x1_0000;
    assert Pow2(20) == 0x10_0000;
  }

  /** `a & b`: bit `i` of the result is set when bit `i` is set in both. */
  function And(a: nat, b: nat): nat
  {
    if a == 0 || b == 0 then 0
    else 2 * And(a / 2, b / 2) + (if a % 2 == 1 && b % 2 == 1 then 1 else 0)
  }

  /** `a >> n` on an unsigned integer: `n` bits fall off the low end. */
  function Shr(a: nat, n: nat): nat
  {
    if n == 0 then a else Shr(a / 2, n - 1)
  }

  /** `b << n`: `n` zero bits enter at the low end. */
  function Shl(b: nat, n: nat): nat
  {
    if n == 0 then b else 2 * Shl(b, n - 1)
  }

  /** Halving, then dividing by `p`, divides by `2 * p`. */
  lemma HalfThenDiv(x: nat, p: nat)
    requires p >= 1
    ensures (x / 2) / p == x / (2 * p)
    ensures x % (2 * p) == 2 * ((x / 2) % p) + x % 2
  {
    var q, r := (x / 2) / p, (x / 2) % p;
    assert x == 2 * (q * p + r) + x % 2;
    assert x == q * (2 * p) + (2 * r + x % 2);
    ModUnique(x, q, 2 * r + x % 2, 2 * p);
  }

  /** Shifting right by `n` is division by 2^n. */
  lemma {:induction false} ShrIsDiv(x: nat, n: nat)
    ensures Shr(x, n) == x / Pow2(n)
  {
    if n > 0 {
      ShrIsDiv(x / 2, n - 1);
      HalfThenDiv(x, Pow2(n - 1));
    }
  }

  /** Masking with `n` low one-bits keeps the remainder modulo 2^n. */
  lemma {:induction false} AndLowMask(x: nat, n: nat)
    ensures And(x, Pow2(n) - 1) == x % Pow2(n)
  {
    if n > 0 {
      var p := Pow2(n - 1);
      assert Pow2(n) == 2 * p;
      AndOdd(x, p - 1);
      AndLowMask(x / 2, n - 1);
      HalfThenDiv(x, p);
    }
  }

  /** Masking with `b << n` keeps the bits of `x` at positions `n` and up that `b` selects. */
  lemma {:induction false} AndShiftedMask(x: nat, b: nat, n: nat)
    ensures And(x, Shl(b, n)) == Shl(And(Shr(x, n), b), n)
  {
    if n > 0 {
      AndShiftedMask(x / 2, b, n - 1);
      AndEven(x, Shl(b, n - 1));
    } else {
      assert Shl(b, 0) == b;
    }
  }

  /** An odd mask keeps the low bit of `x`. */
  lemma AndOdd(x: nat, c: nat)
    ensures And(x, 2 * c + 1) == 2 * And(x / 2, c) + x % 2
  {
    assert (2 * c + 1) / 2 == c && (2 * c + 1) % 2 == 1;
  }

  /** An even mask drops the low bit of `x`. */
  lemma AndEven(x: nat, c: nat)
    ensures And(x, 2 * c) == 2 * And(x / 2, c)
  {
    if x > 0 && c > 0 {
      assert (2 * c) / 2 == c && (2 * c) % 2 == 0;
    }
  }

  /** Shifting left by `n` multiplies by 2^n. */
  lemma {:induction false} ShlIsMul(b: nat, n: nat)
    ensures Shl(b, n) == b * Pow2(n)
  {
    if n > 0 {
      ShlIsMul(b, n - 1);
    }
  }
}
