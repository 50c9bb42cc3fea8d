/** The dense table `UnstableTable<T0>`: a 1024-slot column and a `Count`. `Add` stores at
    `++Count`, so the records it has stored sit in slots 1..Count; `Remove` finds a value by
    searching the whole backing array and moves the record at `Count` into the hole.

    As in the slot table, the table is first described as a value (`Dense`) with one function
    per operation and the lemmas about them; the class at the end is the in-place code. */
module UnstableTables {
  import opened Machine

  /** `new T0[1024]`. */
  const Capacity: int := 1024

  datatype Dense<T> = Dense(count: int32, column: seq<T>)

  ghost predicate WellFormed<T>(d: Dense<T>) {
    |d.column| == Capacity
  }

  /** `Array.IndexOf`: the first index holding `v`, or -1 when there is none. */
  function IndexOf<T(==)>(s: seq<T>, v: T): (r: int)
    ensures -1 <= r < |s|
    ensures r == -1 <==> v !in s
    ensures r >= 0 ==> s[r] == v && v !in s[..r]
  {
    if s == [] then -1
    else if s[0] == v then 0
    else
      var k := IndexOf(s[1..], v);
      if k < 0 then -1
      else
        assert s[..k + 1] == [s[0]] + s[1..][..k];
        k + 1
  }

  /** The records `Add` has stored since the table was made, while `Count` has stayed in the
      column's range: slots 1..Count. Slot 0 is not among them. */
  function Live<T>(d: Dense<T>): (r: seq<T>)
    requires WellFormed(d) && 0 <= d.count < Capacity as int32
    ensures |r| == d.count as int
    ensures forall k :: 0 <= k < |r| ==> r[k] == d.column[k + 1]
  {
    d.column[1..d.count as int + 1]
  }

  /** What `Add` raises: the store at the incremented `Count` is bounds checked. */
  function AddOutcome<T>(d: Dense<T>): (r: Outcome)
    ensures r.Pass? <==> -1 <= d.count as int < Capacity - 1
    ensures r.Fail? ==> r.fault == IndexOutOfRange
  {
    var c := Inc32(d.count);
    if 0 <= c as int < Capacity then Pass else Fail(IndexOutOfRange)
  }

  /** The state after `Add(v)`. `++Count` happens before the store, so a failing `Add` still
      increments `Count` (wrapping like any C# `int`); slot 0 is written only when `Count` was
      -1. */
  function AddState<T>(d: Dense<T>, v: T): (r: Dense<T>)
    requires WellFormed(d)
    ensures WellFormed(r)
    ensures r.count == Inc32(d.count)
    ensures AddOutcome(d).Pass? ==> r.column == d.column[r.count := v]
    ensures AddOutcome(d).Fail? ==> r.column == d.column
    ensures d.count != -1 ==> r.column[0] == d.column[0]
    ensures 0 <= d.count as int < Capacity - 1 ==> Live(r) == Live(d) + [v]
  {
    var c := Inc32(d.count);
    var r := Dense(c, if 0 <= c as int < Capacity then d.column[c := v] else d.column);
    assert 0 <= d.count as int < Capacity - 1 ==> Live(r) == Live(d) + [v] by {
      if 0 <= d.count as int < Capacity - 1 {
        assert Live(r) == r.column[1..c as int + 1];
      }
    }
    r
  }

  /** What `Remove(v)` returns: false when the value is nowhere in the backing array, an
      exception when the read of slot `Count` is out of range, true otherwise. */
  function RemoveResult<T(==)>(d: Dense<T>, v: T): (r: Result<bool>)
    requires WellFormed(d)
    ensures r == Ok(false) <==> v !in d.column
    ensures r == Ok(true) <==> v in d.column && 0 <= d.count as int < Capacity
    ensures r.Err? ==> r.fault == IndexOutOfRange
  {
    if IndexOf(d.column, v) < 0 then Ok(false)
    else if !(0 <= d.count as int < Capacity) then Err(IndexOutOfRange)
    else Ok(true)
  }

  /** The state after `Remove(v)`: the first slot holding `v` receives the record at `Count`,
      and `Count` goes down by one; nothing else changes. */
  function RemoveState<T(==)>(d: Dense<T>, v: T): (r: Dense<T>)
    requires WellFormed(d)
    ensures WellFormed(r)
    ensures RemoveResult(d, v) != Ok(true) ==> r == d
    ensures RemoveResult(d, v) == Ok(true) ==>
      var idx := IndexOf(d.column, v);
      && r.count as int == d.count as int - 1
      && r.column[idx] == d.column[d.count]
      && forall k :: 0 <= k < Capacity && k != idx ==> r.column[k] == d.column[k]
  {
    var idx := IndexOf(d.column, v);
    if idx >= 0 && 0 <= d.count as int < Capacity then
      Dense((d.count as int - 1) as int32, d.column[idx := d.column[d.count]])
    else d
  }

  /** Overwriting one element exchanges one copy in the multiset. */
  lemma MultisetUpdate<T>(s: seq<T>, j: nat, x: T)
    requires j < |s|
    ensures multiset(s[j := x]) == multiset(s) - multiset{s[j]} + multiset{x}
  {
    assert s == s[..j] + [s[j]] + s[j + 1..];
    assert s[j := x] == s[..j] + [x] + s[j + 1..];
  }

  /** The first copy is at or before any copy. */
  lemma IndexOfAtMost<T>(s: seq<T>, v: T, j: nat)
    requires j < |s| && s[j] == v
    ensures 0 <= IndexOf(s, v) <= j
  {
  }

  /** Swap-removal at position `j` of a sequence whose last element moves into the hole. */
  lemma SwapRemoveMultiset<T>(L: seq<T>, j: nat)
    requires j < |L|
    ensures multiset(L[j := L[|L| - 1]][..|L| - 1]) == multiset(L) - multiset{L[j]}
  {
    var n := |L|;
    assert L == L[..n - 1] + [L[n - 1]];
    if j == n - 1 {
      assert L[j := L[n - 1]][..n - 1] == L[..n - 1];
    } else {
      assert L[j := L[n - 1]][..n - 1] == L[..n - 1][j := L[n - 1]];
      MultisetUpdate(L[..n - 1], j, L[n - 1]);
      assert L[..n - 1][j] == L[j];
    }
  }

  /** When the first copy of `v` in the backing array is a live record, `Remove(v)` takes
      exactly that one copy off the live records and keeps the rest, so no record is lost
      or duplicated. */
  lemma RemoveLiveRecord<T>(d: Dense<T>, v: T)
    requires WellFormed(d) && 0 <= d.count as int < Capacity
    requires d.column[0] != v && v in Live(d)
    ensures RemoveResult(d, v) == Ok(true)
    ensures 0 <= RemoveState(d, v).count
    ensures multiset(Live(RemoveState(d, v))) == multiset(Live(d)) - multiset{v}
  {
    var L := Live(d);
    var n := d.count as int;
    var j :| 0 <= j < |L| && L[j] == v;
    IndexOfAtMost(d.column, v, j + 1);
    var idx := IndexOf(d.column, v);
    assert 1 <= idx <= n;
    SwapRemoveLive(d, v);
    SwapRemoveMultiset(L, idx - 1);
  }

  /** Removing the record in live slot `idx` moves the last live record into its place. */
  lemma SwapRemoveLive<T>(d: Dense<T>, v: T)
    requires WellFormed(d) && 0 <= d.count as int < Capacity
    requires 1 <= IndexOf(d.column, v) <= d.count as int
    ensures
      var L, idx, n := Live(d), IndexOf(d.column, v), d.count as int;
      Live(RemoveState(d, v)) == L[idx - 1 := L[n - 1]][..n - 1]
  {
    var L, idx, n := Live(d), IndexOf(d.column, v), d.count as int;
    var after := Live(RemoveState(d, v));
    var swapped := L[idx - 1 := L[n - 1]][..n - 1];
    assert |after| == |swapped|;
    forall k | 0 <= k < n - 1
      ensures after[k] == swapped[k]
    {
    }
  }

  /** The search is not limited to the live records. When the first copy of `v` is in slot 0
      or in a slot past `Count`, `Remove(v)` still answers true, but what disappears from the
      live records is the last one, and `v` itself is left where it was. */
  lemma RemoveOfDeadValueDropsLast<T>(d: Dense<T>, v: T)
    requires WellFormed(d) && 1 <= d.count as int < Capacity
    requires v in d.column && (d.column[0] == v || v !in Live(d))
    ensures RemoveResult(d, v) == Ok(true)
    ensures Live(RemoveState(d, v)) == Live(d)[..d.count - 1]
  {
    var idx := IndexOf(d.column, v);
    var n := d.count as int;
    assert idx == 0 || idx > n;
    assert Live(RemoveState(d, v)) == Live(d)[..n - 1];
  }

  /** The operations a caller can apply to a table. */
  datatype Op<T> = AddOp(value: T) | RemoveOp(value: T)

  function Step<T(==)>(d: Dense<T>, op: Op<T>): (r: Dense<T>)
    requires WellFormed(d)
    ensures WellFormed(r)
  {
    match op
    case AddOp(v) => AddState(d, v)
    case RemoveOp(v) => RemoveState(d, v)
  }

  function Run<T(==)>(d: Dense<T>, ops: seq<Op<T>>): (r: Dense<T>)
    requires WellFormed(d)
    ensures WellFormed(r)
    decreases |ops|
  {
    if ops == [] then d else Run(Step(d, ops[0]), ops[1..])
  }

  /** The calls to `Add` among `ops`, failed ones included. */
  function Adds<T>(ops: seq<Op<T>>): nat {
    if ops == [] then 0 else (if ops[0].AddOp? then 1 else 0) + Adds(ops[1..])
  }

  /** The calls to `Remove` among `ops` that returned true. */
  function Removed<T(==)>(d: Dense<T>, ops: seq<Op<T>>): nat
    requires WellFormed(d)
    decreases |ops|
  {
    if ops == [] then 0
    else
      (if ops[0].RemoveOp? && RemoveResult(d, ops[0].value) == Ok(true) then 1 else 0)
      + Removed(Step(d, ops[0]), ops[1..])
  }

  /** `Count` is its starting value plus every `Add` call (even one that failed) minus every
      `Remove` that returned true, as a wrapping C# `int`. */
  lemma CountTracksCalls<T>(d: Dense<T>, ops: seq<Op<T>>)
    requires WellFormed(d)
    ensures Run(d, ops).count == Wrap32(d.count as int + Adds(ops) - Removed(d, ops))
  {
    var k := CountOffset(d, ops);
    WrapShift(d.count as int + Adds(ops) - Removed(d, ops), k);
  }

  /** The exact count, up to a number `k` of wraps. */
  lemma {:induction false} CountOffset<T>(d: Dense<T>, ops: seq<Op<T>>) returns (k: int)
    requires WellFormed(d)
    ensures Run(d, ops).count as int
      == d.count as int + Adds(ops) - Removed(d, ops) + k * 0x1_0000_0000
    decreases |ops|
  {
    if ops == [] {
      k := 0;
    } else {
      var d' := Step(d, ops[0]);
      var k1 := StepOffset(d, ops[0]);
      var k2 := CountOffset(d', ops[1..]);
      assert Run(d, ops) == Run(d', ops[1..]);
      k := k1 + k2;
    }
  }

  lemma StepOffset<T>(d: Dense<T>, op: Op<T>) returns (k: int)
    requires WellFormed(d)
    ensures
      var da := if op.AddOp? then 1 else 0;
      var dm := if op.RemoveOp? && RemoveResult(d, op.value) == Ok(true) then 1 else 0;
      Step(d, op).count as int == d.count as int + da - dm + k * 0x1_0000_0000
  {
    k := if op.AddOp? && d.count == 0x7FFF_FFFF then -1 else 0;
  }

  /** The slots a `foreach` reads through `Current` when it drives the enumerator from
      position `index`: `MoveNext` answers `index++ < Count`, so each true answer is followed
      by a read of the incremented index. */
  function Visits(index: int32, count: int32): (r: seq<int>)
    decreases count as int - index as int
  {
    if index < count then [index as int + 1] + Visits(index + 1, count) else []
  }

  /** From a fresh enumerator (position -1) a `foreach` reads slots 0, 1, ..., Count: one
      more step than `Count`, starting at the slot `Add` never writes. */
  lemma {:induction false} VisitsFrom(index: int32, count: int32)
    ensures |Visits(index, count)| == if index < count then count as int - index as int else 0
    ensures forall k :: 0 <= k < |Visits(index, count)| ==> Visits(index, count)[k] == index as int + 1 + k
    decreases count as int - index as int
  {
    if index < count {
      VisitsFrom(index + 1, count);
    }
  }

  lemma ForeachVisitsZeroThroughCount(count: int32)
    ensures Visits(-1, count) == seq(if count < 0 then 0 else count as int + 1, k => k)
  {
    VisitsFrom(-1, count);
  }

  class UnstableTable<T0(==)> {
    var Count: int32
    const column0: array<T0>

    ghost predicate Valid()
      reads this
    {
      column0.Length == Capacity
    }

    ghost function State(): (d: Dense<T0>)
      reads this, column0
      requires Valid()
      ensures WellFormed(d)
    {
      Dense(Count, column0[..])
    }

    /** A new table: `Count` 0 and every slot holding `zero`, which stands for `default(T0)`. */
    constructor (zero: T0)
      ensures Valid() && fresh(column0)
      ensures Count == 0
      ensures column0[..] == seq(Capacity, _ => zero)
    {
      Count := 0;
      column0 := new T0[Capacity](_ => zero);
    }

    method Add(value: T0) returns (r: Outcome)
      requires Valid()
      modifies this, column0
      ensures Valid()
      ensures r == AddOutcome(old(State()))
      ensures State() == AddState(old(State()), value)
    {
      Count := Inc32(Count);
      if !(0 <= Count as int < column0.Length) {
        return Fail(IndexOutOfRange);
      }
      column0[Count] := value;
      return Pass;
    }

    method Remove(value: T0) returns (r: Result<bool>)
      requires Valid()
      modifies this, column0
      ensures Valid()
      ensures r == RemoveResult(old(State()), value)
      ensures State() == RemoveState(old(State()), value)
    {
      var idx := IndexOf(column0[..], value);
      if idx < 0 {
        return Ok(false);
      }
      if !(0 <= Count as int < column0.Length) {
        return Err(IndexOutOfRange);
      }
      column0[idx] := column0[Count];
      Count := Count - 1;
      return Ok(true);
    }

    method GetEnumerator() returns (e: Enumerable<T0>)
      ensures fresh(e) && e.table == this && e.index == -1
    {
      e := new Enumerable(this);
    }
  }

  /** The table's `ref struct Enumerable`; the reference `Current` returns is modelled as a
      read (`Current`) and a write (`SetCurrent`) of the slot at the cursor. */
  class Enumerable<T0(==)> {
    const table: UnstableTable<T0>
    var index: int32

    constructor (unstableTable: UnstableTable<T0>)
      ensures table == unstableTable && index == -1
    {
      table := unstableTable;
      index := -1;
    }

    /** The slots the rest of a `foreach` will read. */
    ghost function Remaining(): seq<int>
      reads this, table
    {
      Visits(index, table.Count)
    }

    method MoveNext() returns (more: bool)
      modifies this
      ensures more == (old(index) < table.Count)
      ensures index == Inc32(old(index))
      ensures more ==> old(Remaining()) == [index as int] + Remaining()
      ensures !more ==> old(Remaining()) == []
    {
      more := index < table.Count;
      index := Inc32(index);
    }

    method Current() returns (r: Result<T0>)
      requires table.Valid()
      ensures 0 <= index as int < Capacity ==> r == Ok(table.column0[index])
      ensures !(0 <= index as int < Capacity) ==> r == Err(IndexOutOfRange)
    {
      if !(0 <= index as int < table.column0.Length) {
        return Err(IndexOutOfRange);
      }
      return Ok(table.column0[index]);
    }

    method SetCurrent(value: T0) returns (r: Outcome)
      requires table.Valid()
      modifies table.column0
      ensures r.Pass? <==> 0 <= index as int < Capacity
      ensures r.Pass? ==> table.column0[..] == old(table.column0[..])[index := value]
      ensures r.Fail? ==> table.column0[..] == old(table.column0[..])
    {
      if !(0 <= index as int < table.column0.Length) {
        return Fail(IndexOutOfRange);
      }
      table.column0[index] := value;
      return Pass;
    }
  }

  /** A caller's run: three adds, a remove, and a fresh table's quirk of removing the default
      value from slot 0. */
  method Scenario(x: int, y: int, z: int)
    requires x != 0 && y != 0 && z != 0 && x != y && y != z && x != z
  {
    var t := new UnstableTable<int>(0);
    var ok := t.Add(x);
    ok := t.Add(y);
    ok := t.Add(z);
    assert t.column0[..4] == [0, x, y, z] && t.Count == 3;
    assert t.column0[1] == x;
    var removed := t.Remove(x);
    assert removed == Ok(true);
    assert t.column0[..3] == [0, z, y] && t.Count == 2;
    var u := new UnstableTable<int>(0);
    assert u.column0[0] == 0;
    removed := u.Remove(0);
    assert removed == Ok(true) && u.Count == -1;
    ok := u.Add(x);
    assert ok == Pass && u.column0[0] == x && u.Count == 0;
  }
}
