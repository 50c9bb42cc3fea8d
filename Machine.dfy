/** Fixed-width integers of the .NET runtime, and the failures the core can raise. */
module Machine {

  /** C# `ushort`. */
  newtype u16 = x: int | 0 <= x < 0x1_0000

  /** C# `byte`. */
  newtype u8 = x: int | 0 <= x < 0x100

  /** C# `uint`. */
  newtype u32 = x: int | 0 <= x < 0x1_0000_0000

  /** C# `int`. */
  newtype int32 = x: int | -0x8000_0000 <= x < 0x8000_0000

  const Modulus32: int := 0x1_0000_0000

  /** The two's-complement reading of `x` modulo 2^32: what an unchecked C# `int`
      operation stores when its exact result is `x`. */
  function Wrap32(x: int): (r: int32)
    ensures (r as int - x) % Modulus32 == 0
    ensures -0x8000_0000 <= x < 0x8000_0000 ==> r as int == x
  {
    ((x + 0x8000_0000) % Modulus32 - 0x8000_0000) as int32
  }

  /** Two exact values that agree modulo 2^32 wrap to the same `int`. */
  lemma WrapCongruent(x: int, y: int)
    requires (x - y) % Modulus32 == 0
    ensures Wrap32(x) == Wrap32(y)
  {
    var k := (x - y) / Modulus32;
    assert x + 0x8000_0000 == (y + 0x8000_0000) + k * Modulus32;
    ModShift(y + 0x8000_0000, k);
  }

  /** Adding whole multiples of 2^32 does not change the wrapped value. */
  lemma WrapShift(x: int, k: int)
    ensures Wrap32(x + k * Modulus32) == Wrap32(x)
  {
    ModShift(x + 0x8000_0000, k);
    assert x + k * Modulus32 + 0x8000_0000 == (x + 0x8000_0000) + k * Modulus32;
  }

  lemma ModShift(a: int, k: int)
    ensures (a + k * Modulus32) % Modulus32 == a % Modulus32
  {
    var q, r := a / Modulus32, a % Modulus32;
    assert a + k * Modulus32 == (q + k) * Modulus32 + r;
  }

  /** Wrapping an intermediate result does not change a wrapped sum. */
  lemma WrapAddLeft(a: int, b: int)
    ensures Wrap32(Wrap32(a) as int + b) == Wrap32(a + b)
  {
    WrapCongruent(Wrap32(a) as int + b, a + b);
  }

  /** A positive multiple of `m` is at least `m`. */
  lemma MulAtLeast(d: int, m: int)
    requires d >= 1 && m > 0
    ensures d * m >= m
    decreases d
  {
    if d > 1 {
      MulAtLeast(d - 1, m);
      assert d * m == (d - 1) * m + m;
    }
  }

  /** Euclidean division has one remainder. */
  lemma ModUnique(a: int, q: int, r: int, m: int)
    requires m > 0 && 0 <= r < m && a == q * m + r
    ensures a % m == r && a / m == q
  {
    var q', r' := a / m, a % m;
    assert a == q' * m + r';
    var d := q - q';
    assert d * m == r' - r;
    if d > 0 {
      MulAtLeast(d, m);
    } else if d < 0 {
      MulAtLeast(-d, m);
    }
  }

  /** C# `a + b` on `int` in an unchecked context. */
  function Add32(a: int32, b: int32): (r: int32)
    ensures (r as int - (a as int + b as int)) % Modulus32 == 0
    ensures -0x8000_0000 <= a as int + b as int < 0x8000_0000 ==> r as int == a as int + b as int
  {
    Wrap32(a as int + b as int)
  }

  /** C# `x++` / `++x` on an `int`: the successor, wrapping at `int.MaxValue`. */
  function Inc32(x: int32): (r: int32)
    ensures x < 0x7FFF_FFFF ==> r as int == x as int + 1
    ensures x == 0x7FFF_FFFF ==> r == -0x8000_0000
  {
    if x == 0x7FFF_FFFF then -0x8000_0000 else x + 1
  }

  /** C# `++x` on a `uint`: the successor, wrapping to 0 after `uint.MaxValue`. */
  function IncU32(x: u32): (r: u32)
    ensures r as int == (x as int + 1) % Modulus32
  {
    if x == 0xFFFF_FFFF then 0 else x + 1
  }

  /** The .NET exceptions the core can raise. */
  datatype Fault =
    | ArgumentOutOfRange   // ArgumentOutOfRangeException thrown by the handle check
    | InvalidGeneration    // the plain Exception("invalid gen") of the handle check
    | IndexOutOfRange      // IndexOutOfRangeException of an array access
    | QueueEmpty           // InvalidOperationException of Queue.Dequeue

  /** A value, or the exception that replaced it. */
  datatype Result<T> = Ok(value: T) | Err(fault: Fault)

  /** A void call that either returns or throws. */
  datatype Outcome = Pass | Fail(fault: Fault)
}
