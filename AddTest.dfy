/** The scalar summation loops of `AddTest`: one accumulator, two unrolled adds, and two, four
    or eight independent accumulators ("lanes") over a readonly `int[1024]`. Every `+=` is an
    unchecked 32-bit add. */
module Summation {
  import opened Machine

  /** The exact sum of `s`, added up front to back as the loops do. */
  function Sum(s: seq<int32>): int {
    if s == [] then 0 else Sum(s[..|s| - 1]) + s[|s| - 1] as int
  }

  /** The exact sum of the elements of `s` whose index leaves remainder `k` modulo `m`: what
      accumulator number `k` of an `m`-way loop adds up. */
  function Lane(s: seq<int32>, k: nat, m: nat): int
    requires m > 0
  {
    if s == [] then 0
    else Lane(s[..|s| - 1], k, m) + (if (|s| - 1) % m == k then s[|s| - 1] as int else 0)
  }

  /** Lanes 0..n-1 of an `m`-way split, added together. */
  function Lanes(s: seq<int32>, n: nat, m: nat): int
    requires m > 0
  {
    if n == 0 then 0 else Lanes(s, n - 1, m) + Lane(s, n - 1, m)
  }

  lemma PrefixOfPrefix(s: seq<int32>, j: nat)
    requires j < |s|
    ensures s[..j + 1][..j] == s[..j]
  {
  }

  /** One more element adds to the sum. */
  lemma SumExtend(s: seq<int32>, j: nat)
    requires j < |s|
    ensures Sum(s[..j + 1]) == Sum(s[..j]) + s[j] as int
  {
    PrefixOfPrefix(s, j);
  }

  /** One more element adds to its own lane only. */
  lemma LaneExtend(s: seq<int32>, j: nat, k: nat, m: nat)
    requires j < |s| && m > 0
    ensures Lane(s[..j + 1], k, m) == Lane(s[..j], k, m) + (if j % m == k then s[j] as int else 0)
  {
    PrefixOfPrefix(s, j);
  }

  /** Counting on from a multiple of `m` by less than `m`. */
  lemma ModAddSmall(i: nat, r: nat, m: nat)
    requires m > 0 && i % m == 0 && r < m
    ensures (i + r) % m == r
  {
    ModUnique(i + r, i / m, r, m);
  }

  /** A block of `m` elements starting at a multiple of `m` adds exactly one element to each
      lane: element `i + k` to lane `k`. */
  lemma {:induction false} LaneBlock(s: seq<int32>, i: nat, t: nat, k: nat, m: nat)
    requires m > 0 && i % m == 0 && t <= m && i + t <= |s| && k < m
    ensures Lane(s[..i + t], k, m) == Lane(s[..i], k, m) + (if k < t then s[i + k] as int else 0)
  {
    if t > 0 {
      LaneBlock(s, i, t - 1, k, m);
      LaneExtend(s, i + t - 1, k, m);
      ModAddSmall(i, t - 1, m);
    }
  }

  /** Adding one element to the sequence adds it to the total of the lanes below its own. */
  lemma {:induction false} LanesExtend(s: seq<int32>, j: nat, n: nat, m: nat)
    requires j < |s| && m > 0
    ensures Lanes(s[..j + 1], n, m) == Lanes(s[..j], n, m) + (if j % m < n then s[j] as int else 0)
  {
    if n > 0 {
      LanesExtend(s, j, n - 1, m);
      LaneExtend(s, j, n - 1, m);
    }
  }

  /** The `m` lanes of any `m`-way split partition the sum. */
  lemma {:induction false} LanesPartitionSum(s: seq<int32>, m: nat)
    requires m > 0
    ensures Lanes(s, m, m) == Sum(s)
    decreases |s|
  {
    if s == [] {
      LanesOfEmpty(s, m, m);
    } else {
      var j := |s| - 1;
      LanesPartitionSum(s[..j], m);
      assert s[..j + 1] == s;
      LanesExtend(s, j, m, m);
      SumExtend(s, j);
    }
  }

  lemma LanesOfEmpty(s: seq<int32>, n: nat, m: nat)
    requires s == [] && m > 0
    ensures Lanes(s, n, m) == 0
  {
  }

  /** Adding two wrapped values wraps the exact sum. */
  lemma AddWrapped(x: int, y: int)
    ensures Add32(Wrap32(x), Wrap32(y)) == Wrap32(x + y)
  {
    WrapAddLeft(x, Wrap32(y) as int);
    WrapCongruent(x + Wrap32(y) as int, x + y);
  }

  /** The array the benchmark sums: 1024 draws of `Random.Next(100)`. */
  ghost predicate Samples(s: seq<int32>) {
    |s| == 1024 && forall i :: 0 <= i < |s| ==> 0 <= s[i] < 100
  }

  ghost predicate Digits(s: seq<int32>) {
    forall i :: 0 <= i < |s| ==> 0 <= s[i] < 100
  }

  lemma {:induction false} SumBounds(s: seq<int32>)
    requires Digits(s)
    ensures 0 <= Sum(s) <= 99 * |s|
    decreases |s|
  {
    if s != [] {
      SumBounds(s[..|s| - 1]);
    }
  }

  lemma {:induction false} LaneBounds(s: seq<int32>, k: nat, m: nat)
    requires Digits(s) && m > 0
    ensures 0 <= Lane(s, k, m) <= Sum(s)
    decreases |s|
  {
    if s != [] {
      LaneBounds(s[..|s| - 1], k, m);
    }
  }

  /** On the benchmark's data no running total of any loop leaves the `int` range, so the
      wrapping adds compute the exact sums. */
  lemma SamplesNeverOverflow(s: seq<int32>, i: nat, k: nat, m: nat)
    requires Samples(s) && i <= |s| && m > 0
    ensures Wrap32(Sum(s[..i])) as int == Sum(s[..i]) <= 99 * 1024
    ensures Wrap32(Lane(s[..i], k, m)) as int == Lane(s[..i], k, m)
  {
    assert Digits(s[..i]);
    SumBounds(s[..i]);
    LaneBounds(s[..i], k, m);
  }

  /** The loops of `TestSimple_Pair_NonSerial` and `TestSimple` disagree on the benchmark's
      data as soon as one odd-indexed element is not zero: the second accumulator is
      computed and then dropped. */
  lemma PairNonSerialMissesOddIndices(s: seq<int32>, j: nat)
    requires Samples(s) && j < |s| && j % 2 == 1 && s[j] != 0
    ensures Wrap32(Lane(s, 0, 2)) != Wrap32(Sum(s))
  {
    LanesPartitionSum(s, 2);
    assert Lanes(s, 1, 2) == Lane(s, 0, 2);
    LaneAtLeast(s, 1, 2, j);
    assert Digits(s);
    SumBounds(s);
    LaneBounds(s, 0, 2);
    assert s[..|s|] == s;
    SamplesNeverOverflow(s, |s|, 0, 2);
  }

  /** With no negative element, a lane is at least each of its elements. */
  lemma {:induction false} LaneAtLeast(s: seq<int32>, k: nat, m: nat, j: nat)
    requires Digits(s) && m > 0 && j < |s| && j % m == k
    ensures Lane(s, k, m) >= s[j] as int
    decreases |s|
  {
    var n := |s| - 1;
    assert Digits(s[..n]);
    if j < n {
      LaneAtLeast(s[..n], k, m, j);
      assert s[..n][j] == s[j];
    } else {
      LaneBounds(s[..n], k, m);
    }
  }

  class AddTest {
    const data: array<int32>

    /** The constructor fills `data` from `draws`, the 1024 results of `rng.Next(100)`. */
    constructor (draws: seq<int32>)
      requires Samples(draws)
      ensures fresh(data) && data[..] == draws && Samples(data[..])
    {
      data := new int32[1024];
      new;
      var i := 0;
      while i < data.Length
        invariant 0 <= i <= data.Length
        invariant forall k :: 0 <= k < i ==> data[k] == draws[k]
      {
        data[i] := draws[i];
        i := i + 1;
      }
    }

    method TestSimple() returns (total: int32)
      ensures total == Wrap32(Sum(data[..]))
    {
      ghost var s := data[..];
      total := 0;
      for i := 0 to data.Length
        invariant total == Wrap32(Sum(s[..i]))
      {
        SumStep(s, i);
        total := Add32(total, data[i]);
      }
      assert s[..data.Length] == s;
    }

    method TestSimplePair() returns (total: int32)
      requires data.Length % 2 == 0
      ensures total == Wrap32(Sum(data[..]))
    {
      ghost var s := data[..];
      total := 0;
      var i := 0;
      while i < data.Length
        invariant 0 <= i <= data.Length && i % 2 == 0
        invariant total == Wrap32(Sum(s[..i]))
      {
        SumStep(s, i);
        total := Add32(total, data[i]);
        SumStep(s, i + 1);
        total := Add32(total, data[i + 1]);
        i := i + 2;
      }
      assert s[..i] == s;
    }

    method TestSimplePairNonSerial() returns (total: int32)
      requires data.Length % 2 == 0
      ensures total == Wrap32(Lane(data[..], 0, 2))
    {
      ghost var s := data[..];
      total := 0;
      var totalB: int32 := 0;
      var i := 0;
      while i < data.Length
        invariant 0 <= i <= data.Length && i % 2 == 0
        invariant total == Wrap32(Lane(s[..i], 0, 2))
        invariant totalB == Wrap32(Lane(s[..i], 1, 2))
      {
        LaneStep(s, i, 0, 2);
        LaneStep(s, i, 1, 2);
        total := Add32(total, data[i]);
        totalB := Add32(totalB, data[i + 1]);
        i := i + 2;
      }
      assert s[..i] == s;
    }

    method TestSimpleNonSerial4() returns (r: int32)
      requires data.Length % 4 == 0
      ensures r == Wrap32(Sum(data[..]))
    {
      ghost var s := data[..];
      var totalA: int32 := 0;
      var totalB: int32 := 0;
      var totalC: int32 := 0;
      var totalD: int32 := 0;
      var i := 0;
      while i < data.Length
        invariant 0 <= i <= data.Length && i % 4 == 0
        invariant totalA == Wrap32(Lane(s[..i], 0, 4))
        invariant totalB == Wrap32(Lane(s[..i], 1, 4))
        invariant totalC == Wrap32(Lane(s[..i], 2, 4))
        invariant totalD == Wrap32(Lane(s[..i], 3, 4))
      {
        BlockFits(i, data.Length, 4);
        LaneStep4(s, i);
        totalA := Add32(totalA, data[i]);
        totalB := Add32(totalB, data[i + 1]);
        totalC := Add32(totalC, data[i + 2]);
        totalD := Add32(totalD, data[i + 3]);
        i := i + 4;
      }
      assert s[..i] == s;
      LanesSum4(s);
      r := Add32(Add32(Add32(totalA, totalB), totalC), totalD);
    }

    method TestSimpleNonSerial8() returns (r: int32)
      requires data.Length % 8 == 0
      ensures r == Wrap32(Sum(data[..]))
    {
      ghost var s := data[..];
      var totalA: int32 := 0;
      var totalB: int32 := 0;
      var totalC: int32 := 0;
      var totalD: int32 := 0;
      var totalE: int32 := 0;
      var totalF: int32 := 0;
      var totalG: int32 := 0;
      var totalH: int32 := 0;
      var i := 0;
      while i < data.Length
        invariant 0 <= i <= data.Length && i % 8 == 0
        invariant totalA == Wrap32(Lane(s[..i], 0, 8))
        invariant totalB == Wrap32(Lane(s[..i], 1, 8))
        invariant totalC == Wrap32(Lane(s[..i], 2, 8))
        invariant totalD == Wrap32(Lane(s[..i], 3, 8))
        invariant totalE == Wrap32(Lane(s[..i], 4, 8))
        invariant totalF == Wrap32(Lane(s[..i], 5, 8))
        invariant totalG == Wrap32(Lane(s[..i], 6, 8))
        invariant totalH == Wrap32(Lane(s[..i], 7, 8))
      {
        BlockFits(i, data.Length, 8);
        LaneStep8(s, i);
        totalA := Add32(totalA, data[i]);
        totalB := Add32(totalB, data[i + 1]);
        totalC := Add32(totalC, data[i + 2]);
        totalD := Add32(totalD, data[i + 3]);
        totalE := Add32(totalE, data[i + 4]);
        totalF := Add32(totalF, data[i + 5]);
        totalG := Add32(totalG, data[i + 6]);
        totalH := Add32(totalH, data[i + 7]);
        i := i + 8;
      }
      assert s[..i] == s;
      LanesSum8(s);
      r := Add32(Add32(Add32(Add32(Add32(Add32(Add32(totalA, totalB), totalC), totalD), totalE), totalF), totalG), totalH);
    }
  }

  /** A block of `m` starting at a multiple of `m` fits in a length that is a multiple of `m`. */
  lemma BlockFits(i: nat, n: nat, m: nat)
    requires m > 0 && i % m == 0 && n % m == 0 && i < n
    ensures i + m <= n
  {
    var p, q := i / m, n / m;
    assert i == p * m && n == q * m;
    assert p < q;
    assert (p + 1) * m <= q * m;
  }

  /** One step of a serial loop: the wrapped running total takes in element `i`. */
  lemma SumStep(s: seq<int32>, i: nat)
    requires i < |s|
    ensures Wrap32(Sum(s[..i + 1])) == Add32(Wrap32(Sum(s[..i])), s[i])
  {
    SumExtend(s, i);
    WrapAddLeft(Sum(s[..i]), s[i] as int);
  }

  /** One pass of an `m`-way loop body, for lane `k`: the wrapped accumulator takes in
      element `i + k`. */
  lemma LaneStep(s: seq<int32>, i: nat, k: nat, m: nat)
    requires m > 0 && k < m && i % m == 0 && i + m <= |s|
    ensures Wrap32(Lane(s[..i + m], k, m)) == Add32(Wrap32(Lane(s[..i], k, m)), s[i + k])
  {
    LaneBlock(s, i, m, k, m);
    WrapAddLeft(Lane(s[..i], k, m), s[i + k] as int);
  }

  /** One pass of the 4-way loop body: each accumulator takes in its own element. */
  lemma LaneStep4(s: seq<int32>, i: nat)
    requires i % 4 == 0 && i + 4 <= |s|
    ensures Wrap32(Lane(s[..i + 4], 0, 4)) == Add32(Wrap32(Lane(s[..i], 0, 4)), s[i + 0])
    ensures Wrap32(Lane(s[..i + 4], 1, 4)) == Add32(Wrap32(Lane(s[..i], 1, 4)), s[i + 1])
    ensures Wrap32(Lane(s[..i + 4], 2, 4)) == Add32(Wrap32(Lane(s[..i], 2, 4)), s[i + 2])
    ensures Wrap32(Lane(s[..i + 4], 3, 4)) == Add32(Wrap32(Lane(s[..i], 3, 4)), s[i + 3])
  {
    LaneStep(s, i, 0, 4);
    LaneStep(s, i, 1, 4);
    LaneStep(s, i, 2, 4);
    LaneStep(s, i, 3, 4);
  }

  /** The final `totalA + totalB + totalC + totalD` of the 4-way loop is the wrapped sum. */
  lemma LanesSum4(s: seq<int32>)
    ensures
      Add32(Add32(Add32(Wrap32(Lane(s, 0, 4)), Wrap32(Lane(s, 1, 4))), Wrap32(Lane(s, 2, 4))),
        Wrap32(Lane(s, 3, 4)))
      == Wrap32(Sum(s))
  {
    LanesPartitionSum(s, 4);
    var a, b, c, d := Lane(s, 0, 4), Lane(s, 1, 4), Lane(s, 2, 4), Lane(s, 3, 4);
    assert Lanes(s, 1, 4) == a;
    assert Lanes(s, 2, 4) == a + b;
    assert Lanes(s, 3, 4) == a + b + c;
    AddWrapped(a, b);
    AddWrapped(a + b, c);
    AddWrapped(a + b + c, d);
  }

  /** One pass of the 8-way loop body: each accumulator takes in its own element. */
  lemma LaneStep8(s: seq<int32>, i: nat)
    requires i % 8 == 0 && i + 8 <= |s|
    ensures Wrap32(Lane(s[..i + 8], 0, 8)) == Add32(Wrap32(Lane(s[..i], 0, 8)), s[i + 0])
    ensures Wrap32(Lane(s[..i + 8], 1, 8)) == Add32(Wrap32(Lane(s[..i], 1, 8)), s[i + 1])
    ensures Wrap32(Lane(s[..i + 8], 2, 8)) == Add32(Wrap32(Lane(s[..i], 2, 8)), s[i + 2])
    ensures Wrap32(Lane(s[..i + 8], 3, 8)) == Add32(Wrap32(Lane(s[..i], 3, 8)), s[i + 3])
    ensures Wrap32(Lane(s[..i + 8], 4, 8)) == Add32(Wrap32(Lane(s[..i], 4, 8)), s[i + 4])
    ensures Wrap32(Lane(s[..i + 8], 5, 8)) == Add32(Wrap32(Lane(s[..i], 5, 8)), s[i + 5])
    ensures Wrap32(Lane(s[..i + 8], 6, 8)) == Add32(Wrap32(Lane(s[..i], 6, 8)), s[i + 6])
    ensures Wrap32(Lane(s[..i + 8], 7, 8)) == Add32(Wrap32(Lane(s[..i], 7, 8)), s[i + 7])
  {
    LaneStep(s, i, 0, 8);
    LaneStep(s, i, 1, 8);
    LaneStep(s, i, 2, 8);
    LaneStep(s, i, 3, 8);
    LaneStep(s, i, 4, 8);
    LaneStep(s, i, 5, 8);
    LaneStep(s, i, 6, 8);
    LaneStep(s, i, 7, 8);
  }

  /** The final `totalA + ... + totalH` of the 8-way loop is the wrapped sum. */
  lemma LanesSum8(s: seq<int32>)
    ensures
      Add32(Add32(Add32(Add32(Add32(Add32(Add32(
        Wrap32(Lane(s, 0, 8)), Wrap32(Lane(s, 1, 8))), Wrap32(Lane(s, 2, 8))),
        Wrap32(Lane(s, 3, 8))), Wrap32(Lane(s, 4, 8))), Wrap32(Lane(s, 5, 8))),
        Wrap32(Lane(s, 6, 8))), Wrap32(Lane(s, 7, 8)))
      == Wrap32(Sum(s))
  {
    LanesPartitionSum(s, 8);
    var l0, l1, l2, l3 := Lane(s, 0, 8), Lane(s, 1, 8), Lane(s, 2, 8), Lane(s, 3, 8);
    var l4, l5, l6, l7 := Lane(s, 4, 8), Lane(s, 5, 8), Lane(s, 6, 8), Lane(s, 7, 8);
    assert Lanes(s, 1, 8) == l0;
    assert Lanes(s, 2, 8) == l0 + l1;
    assert Lanes(s, 3, 8) == l0 + l1 + l2;
    assert Lanes(s, 4, 8) == l0 + l1 + l2 + l3;
    assert Lanes(s, 5, 8) == l0 + l1 + l2 + l3 + l4;
    assert Lanes(s, 6, 8) == l0 + l1 + l2 + l3 + l4 + l5;
    assert Lanes(s, 7, 8) == l0 + l1 + l2 + l3 + l4 + l5 + l6;
    Chain8(l0, l1, l2, l3, l4, l5, l6, l7);
  }

  /** Eight wrapped values added left to right wrap their exact total. */
  lemma Chain8(l0: int, l1: int, l2: int, l3: int, l4: int, l5: int, l6: int, l7: int)
    ensures
      Add32(Add32(Add32(Add32(Add32(Add32(Add32(
        Wrap32(l0), Wrap32(l1)), Wrap32(l2)), Wrap32(l3)), Wrap32(l4)), Wrap32(l5)),
        Wrap32(l6)), Wrap32(l7))
      == Wrap32(l0 + l1 + l2 + l3 + l4 + l5 + l6 + l7)
  {
    AddWrapped(l0, l1);
    AddWrapped(l0 + l1, l2);
    AddWrapped(l0 + l1 + l2, l3);
    AddWrapped(l0 + l1 + l2 + l3, l4);
    AddWrapped(l0 + l1 + l2 + l3 + l4, l5);
    AddWrapped(l0 + l1 + l2 + l3 + l4 + l5, l6);
    AddWrapped(l0 + l1 + l2 + l3 + l4 + l5 + l6, l7);
  }
}
