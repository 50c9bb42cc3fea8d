/** The generational slot table `StableTable<T0>`: fixed columns, one `ushort` generation per
    slot, and a FIFO queue of free indices. A handle `(index, generation)` reaches its slot only
    while the slot's generation still equals the handle's.

    The first half of the module describes the table as a value (`Slots`) with one function per
    operation; the lemmas about several calls are stated there. The class `StableTable` at the
    end is the in-place implementation, each method tied to the function of its operation. */
module StableTables {
  import opened Machine

  datatype Handle = Handle(index: u16, generation: u16)

  /** The state of a table: the free queue front first, the per-slot generations, the column. */
  datatype Slots<T> = Slots(free: seq<u16>, gens: seq<u16>, column: seq<T>)

  /** What every table satisfies: the two arrays have the (ushort) capacity as length, and
      every queued index is a slot. */
  ghost predicate WellFormed<T>(s: Slots<T>) {
    && |s.gens| == |s.column| < 0x1_0000
    && forall k :: 0 <= k < |s.free| ==> s.free[k] as int < |s.column|
  }

  /** A handle is live when it names a slot and carries that slot's current generation. */
  predicate Live<T>(s: Slots<T>, h: Handle) {
    h.index as int < |s.gens| && s.gens[h.index] == h.generation
  }

  /** The queue a fresh table of `n` slots starts with: 0, 1, ..., n-1. */
  function Ascending(n: nat): (r: seq<u16>)
    requires n <= 0x1_0000
    ensures |r| == n
    ensures forall k :: 0 <= k < n ==> r[k] as int == k
  {
    if n == 0 then [] else Ascending(n - 1) + [(n - 1) as u16]
  }

  /** A ushort generation after `++`: it never stays the same, and wraps to 0 after 65535. */
  function Bump(g: u16): (r: u16)
    ensures r != g
    ensures r as int == (g as int + 1) % 0x1_0000
  {
    if g == 0xFFFF then 0 else g + 1
  }

  /** `throwInvalidHandle`: the exception validating `h` raises, if any. The bounds test is
      `>` against the capacity, so the index equal to the capacity passes it and fails on the
      `generations[h.Index]` read instead. */
  function Check<T>(s: Slots<T>, h: Handle): (r: Outcome)
    requires WellFormed(s)
    ensures r.Pass? <==> Live(s, h)
    ensures r == Fail(ArgumentOutOfRange) <==> h.index as int > |s.column|
    ensures r == Fail(IndexOutOfRange) <==> h.index as int == |s.column|
  {
    if h.index as int > |s.column| then Fail(ArgumentOutOfRange)
    else if h.index as int == |s.gens| then Fail(IndexOutOfRange)
    else if h.generation != s.gens[h.index] then Fail(InvalidGeneration)
    else Pass
  }

  /** The indexer's `get`. */
  function GetResult<T>(s: Slots<T>, h: Handle): (r: Result<T>)
    requires WellFormed(s)
    ensures r.Ok? <==> Live(s, h)
    ensures r.Ok? ==> r.value == s.column[h.index]
    ensures r.Err? ==> Check(s, h) == Fail(r.fault)
  {
    match Check(s, h)
    case Pass => Ok(s.column[h.index])
    case Fail(f) => Err(f)
  }

  /** The state after the indexer's `set`: the slot's value only, and only for a live handle. */
  function SetState<T>(s: Slots<T>, h: Handle, v: T): (r: Slots<T>)
    requires WellFormed(s)
    ensures WellFormed(r)
    ensures r.free == s.free && r.gens == s.gens
    ensures Live(s, h) ==> r.column == s.column[h.index := v] && GetResult(r, h) == Ok(v)
    ensures !Live(s, h) ==> r == s
  {
    if Check(s, h).Pass? then s.(column := s.column[h.index := v]) else s
  }

  /** What `Add` returns: the front of the queue with that slot's generation, or the
      exception `Dequeue` throws on an empty queue. */
  function AddResult<T>(s: Slots<T>): (r: Result<Handle>)
    requires WellFormed(s)
    ensures r.Err? <==> s.free == []
    ensures r.Err? ==> r.fault == QueueEmpty
    ensures r.Ok? ==> r.value.index == s.free[0] && Live(s, r.value)
  {
    if s.free == [] then Err(QueueEmpty) else Ok(Handle(s.free[0], s.gens[s.free[0]]))
  }

  /** The state after `Add(v)`: the front index leaves the queue and only its slot is written. */
  function AddState<T>(s: Slots<T>, v: T): (r: Slots<T>)
    requires WellFormed(s)
    ensures WellFormed(r)
    ensures r.gens == s.gens
    ensures s.free == [] ==> r == s
    ensures s.free != [] ==>
      r.free == s.free[1..] && r.column == s.column[s.free[0] := v]
    ensures AddResult(s).Ok? ==> GetResult(r, AddResult(s).value) == Ok(v)
  {
    if s.free == [] then s else s.(free := s.free[1..], column := s.column[s.free[0] := v])
  }

  /** What `Remove(h)` returns. A handle that fails the bounds test or carries another
      generation gives `false`; the index equal to the capacity passes the bounds test and
      throws on the `generations` read. */
  function RemoveResult<T>(s: Slots<T>, h: Handle): (r: Result<bool>)
    requires WellFormed(s)
    ensures r == Ok(true) <==> Live(s, h)
    ensures r.Err? <==> h.index as int == |s.column|
    ensures r.Err? ==> r.fault == IndexOutOfRange
  {
    if h.index as int > |s.column| then Ok(false)
    else if h.index as int == |s.gens| then Err(IndexOutOfRange)
    else if h.generation != s.gens[h.index] then Ok(false)
    else Ok(true)
  }

  /** The state after `Remove(h)`: for a live handle its slot's generation is bumped and its
      index joins the back of the queue; the column is never touched. */
  function RemoveState<T>(s: Slots<T>, h: Handle): (r: Slots<T>)
    requires WellFormed(s)
    ensures WellFormed(r)
    ensures r.column == s.column
    ensures Live(s, h) ==>
      && r.gens == s.gens[h.index := Bump(h.generation)]
      && r.free == s.free + [h.index]
    ensures !Live(s, h) ==> r == s
    ensures !Live(r, h)
  {
    if RemoveResult(s, h) == Ok(true) then
      s.(gens := s.gens[h.index := Bump(s.gens[h.index])], free := s.free + [h.index])
    else s
  }

  /** A second `Remove` with the same handle returns false and changes nothing. */
  lemma RemoveTwice<T>(s: Slots<T>, h: Handle)
    requires WellFormed(s) && Live(s, h)
    ensures RemoveResult(RemoveState(s, h), h) == Ok(false)
    ensures RemoveState(RemoveState(s, h), h) == RemoveState(s, h)
    ensures GetResult(RemoveState(s, h), h) == Err(InvalidGeneration)
  {
  }

  /** The table does not track occupancy: a handle made up from a free slot's index and its
      current generation is accepted by `Remove`, and the index is then queued twice. */
  lemma RemoveOfFreeSlotQueuesTwice<T>(s: Slots<T>, i: u16)
    requires WellFormed(s) && i in s.free
    ensures RemoveResult(s, Handle(i, s.gens[i])) == Ok(true)
    ensures multiset(RemoveState(s, Handle(i, s.gens[i])).free)[i] >= 2
  {
    var r := RemoveState(s, Handle(i, s.gens[i]));
    assert r.free == s.free + [i];
    assert multiset(r.free) == multiset(s.free) + multiset{i};
  }

  /** No index is queued twice. */
  predicate Distinct(q: seq<u16>) {
    forall j, k :: 0 <= j < k < |q| ==> q[j] != q[k]
  }

  /** With the queue free of duplicates, the handle `Add` returns names a slot that is no
      longer queued, and the queue stays free of duplicates. */
  lemma AddKeepsDistinct<T>(s: Slots<T>, v: T)
    requires WellFormed(s) && Distinct(s.free) && AddResult(s).Ok?
    ensures AddResult(s).value.index !in AddState(s, v).free
    ensures Distinct(AddState(s, v).free)
  {
  }

  /** Removing a live handle whose slot is not queued (as holds for a handle `Add` returned
      and nothing removed since) keeps the queue free of duplicates. */
  lemma RemoveKeepsDistinct<T>(s: Slots<T>, h: Handle)
    requires WellFormed(s) && Distinct(s.free) && h.index !in s.free
    ensures Distinct(RemoveState(s, h).free)
  {
  }

  /** `n` successive calls to `Add`, with the values `vs`. */
  function AddAll<T>(s: Slots<T>, vs: seq<T>): (r: Slots<T>)
    requires WellFormed(s)
    ensures WellFormed(r)
    decreases |vs|
  {
    if vs == [] then s else AddAll(AddState(s, vs[0]), vs[1..])
  }

  /** The handles those calls return. */
  function AddAllResults<T>(s: Slots<T>, vs: seq<T>): (r: seq<Result<Handle>>)
    requires WellFormed(s)
    ensures |r| == |vs|
    decreases |vs|
  {
    if vs == [] then [] else [AddResult(s)] + AddAllResults(AddState(s, vs[0]), vs[1..])
  }

  function Min(a: int, b: int): int { if a <= b then a else b }

  /** Successive `Add`s hand out the queued indices in queue order, each with its slot's
      generation, and fail once the queue is exhausted; they change no generation. */
  lemma {:induction false} AddAllFollowsQueue<T>(s: Slots<T>, vs: seq<T>)
    requires WellFormed(s)
    ensures |AddAllResults(s, vs)| == |vs|
    ensures forall j :: 0 <= j < |vs| ==>
      AddAllResults(s, vs)[j] ==
        if j < |s.free| then Ok(Handle(s.free[j], s.gens[s.free[j]])) else Err(QueueEmpty)
    ensures AddAll(s, vs).gens == s.gens
    ensures AddAll(s, vs).free == s.free[Min(|vs|, |s.free|)..]
    decreases |vs|
  {
    if vs != [] {
      var s' := AddState(s, vs[0]);
      AddAllFollowsQueue(s', vs[1..]);
      var rs := AddAllResults(s, vs);
      assert rs == [AddResult(s)] + AddAllResults(s', vs[1..]);
      forall j | 0 <= j < |vs|
        ensures rs[j] ==
          if j < |s.free| then Ok(Handle(s.free[j], s.gens[s.free[j]])) else Err(QueueEmpty)
      {
        if j > 0 {
          assert rs[j] == AddAllResults(s', vs[1..])[j - 1];
          if s.free != [] {
            assert s'.free == s.free[1..];
          }
        }
      }
      if s.free != [] {
        assert s.free[1..][Min(|vs| - 1, |s.free| - 1)..] == s.free[Min(|vs|, |s.free|)..];
      }
    }
  }

  /** A table as the constructor leaves it: every generation 0, every index queued once in
      ascending order. */
  ghost predicate FreshTable<T>(s: Slots<T>) {
    && WellFormed(s)
    && s.free == Ascending(|s.column|)
    && forall i :: 0 <= i < |s.gens| ==> s.gens[i] == 0
  }

  /** On a fresh table the first `capacity` calls to `Add` return `{0,0}, {1,0}, ...` in
      ascending index order, and every later call fails. */
  lemma FreshAddsAscending<T>(s: Slots<T>, vs: seq<T>)
    requires FreshTable(s)
    ensures forall j :: 0 <= j < |vs| ==>
      AddAllResults(s, vs)[j] ==
        if j < |s.column| then Ok(Handle(j as u16, 0)) else Err(QueueEmpty)
  {
    AddAllFollowsQueue(s, vs);
  }

  /** Reuse is FIFO: after `Remove(h)`, for a handle whose slot is occupied (not queued), the
      freed index comes back only after every index that was already queued, and then with the
      bumped generation, so `h` stays stale. */
  lemma RemoveThenReuse<T>(s: Slots<T>, h: Handle, vs: seq<T>)
    requires WellFormed(s) && Live(s, h) && h.index !in s.free
    ensures forall j :: 0 <= j < |vs| && j < |s.free| ==>
      AddAllResults(RemoveState(s, h), vs)[j] == Ok(Handle(s.free[j], s.gens[s.free[j]]))
    ensures |vs| > |s.free| ==>
      AddAllResults(RemoveState(s, h), vs)[|s.free|] == Ok(Handle(h.index, Bump(h.generation)))
    ensures GetResult(AddAll(RemoveState(s, h), vs), h) == Err(InvalidGeneration)
  {
    var r := RemoveState(s, h);
    AddAllFollowsQueue(r, vs);
    var rs := AddAllResults(r, vs);
    assert r.free == s.free + [h.index];
    forall j | 0 <= j < |vs| && j < |s.free|
      ensures rs[j] == Ok(Handle(s.free[j], s.gens[s.free[j]]))
    {
      assert rs[j] == Ok(Handle(r.free[j], r.gens[r.free[j]]));
      assert r.free[j] == s.free[j];
      assert s.free[j] != h.index;
    }
    if |vs| > |s.free| {
      assert rs[|s.free|] == Ok(Handle(r.free[|s.free|], r.gens[r.free[|s.free|]]));
    }
  }

  /** The operations a caller can apply to a table. */
  datatype Op<T> = AddOp(value: T) | SetOp(handle: Handle, value: T) | RemoveOp(handle: Handle)

  function Step<T>(s: Slots<T>, op: Op<T>): (r: Slots<T>)
    requires WellFormed(s)
    ensures WellFormed(r)
  {
    match op
    case AddOp(v) => AddState(s, v)
    case SetOp(h, v) => SetState(s, h, v)
    case RemoveOp(h) => RemoveState(s, h)
  }

  function Run<T>(s: Slots<T>, ops: seq<Op<T>>): (r: Slots<T>)
    requires WellFormed(s)
    ensures WellFormed(r) && |r.gens| == |s.gens|
    decreases |ops|
  {
    if ops == [] then s else Run(Step(s, ops[0]), ops[1..])
  }

  /** None of `ops` writes through `h` or removes `h`. */
  predicate Untouched<T>(ops: seq<Op<T>>, h: Handle) {
    forall k :: 0 <= k < |ops| ==> ops[k] != RemoveOp(h) && !(ops[k].SetOp? && ops[k].handle == h)
  }

  /** Handles are stable: a live handle whose slot is not queued keeps reading the same value
      through any operations that neither remove it nor write through it. Another live handle
      with the same index would carry the same generation and so be `h` itself, and the only
      way `h.index` can join the queue is a `Remove(h)`. */
  lemma {:induction false} HandleStable<T>(s: Slots<T>, h: Handle, ops: seq<Op<T>>)
    requires WellFormed(s) && Live(s, h) && h.index !in s.free
    requires Untouched(ops, h)
    ensures GetResult(Run(s, ops), h) == GetResult(s, h)
    ensures Live(Run(s, ops), h) && h.index !in Run(s, ops).free
    decreases |ops|
  {
    if ops != [] {
      var s' := Step(s, ops[0]);
      if ops[0].AddOp? {
        assert s.free != [] ==> s.free[0] != h.index;
      } else if ops[0].RemoveOp? {
        assert Live(s, ops[0].handle) ==> ops[0].handle.index != h.index;
      }
      assert Live(s', h) && h.index !in s'.free;
      assert s'.column[h.index] == s.column[h.index];
      assert Untouched(ops[1..], h) by {
        forall k | 0 <= k < |ops| - 1
          ensures ops[1..][k] != RemoveOp(h) && !(ops[1..][k].SetOp? && ops[1..][k].handle == h)
        {
          assert ops[1..][k] == ops[k + 1];
        }
      }
      HandleStable(s', h, ops[1..]);
    }
  }

  /** The handle `Add` returns reads the added value through any later operations that
      neither remove it nor write through it, provided no index was queued twice. */
  lemma AddedHandleStable<T>(s: Slots<T>, v: T, ops: seq<Op<T>>)
    requires WellFormed(s) && Distinct(s.free) && AddResult(s).Ok?
    requires Untouched(ops, AddResult(s).value)
    ensures GetResult(Run(AddState(s, v), ops), AddResult(s).value) == Ok(v)
  {
    AddKeepsDistinct(s, v);
    HandleStable(AddState(s, v), AddResult(s).value, ops);
  }

  /** How many of `ops` free slot `i`: successful `Remove`s of a handle with that index. */
  function Frees<T>(s: Slots<T>, ops: seq<Op<T>>, i: u16): nat
    requires WellFormed(s)
    decreases |ops|
  {
    if ops == [] then 0
    else
      (if ops[0].RemoveOp? && ops[0].handle.index == i && Live(s, ops[0].handle) then 1 else 0)
      + Frees(Step(s, ops[0]), ops[1..], i)
  }

  /** A slot's generation counts, modulo 2^16, the times that slot has been freed; no other
      operation moves it. */
  lemma {:induction false} GenerationCountsFrees<T>(s: Slots<T>, ops: seq<Op<T>>, i: u16)
    requires WellFormed(s) && i as int < |s.gens|
    ensures Run(s, ops).gens[i] as int == (s.gens[i] as int + Frees(s, ops, i)) % 0x1_0000
    decreases |ops|
  {
    if ops != [] {
      var s' := Step(s, ops[0]);
      GenerationCountsFrees(s', ops[1..], i);
      var d := if ops[0].RemoveOp? && ops[0].handle.index == i && Live(s, ops[0].handle) then 1 else 0;
      assert s'.gens[i] as int == (s.gens[i] as int + d) % 0x1_0000;
      var f := Frees(s', ops[1..], i);
      assert Frees(s, ops, i) == d + f;
      ModAddAssoc(s.gens[i] as int + d, f);
    }
  }

  lemma ModAddAssoc(a: int, b: int)
    ensures (a % 0x1_0000 + b) % 0x1_0000 == (a + b) % 0x1_0000
  {
    var q := a / 0x1_0000;
    assert a == q * 0x1_0000 + a % 0x1_0000;
    assert a + b == (a % 0x1_0000 + b) + q * 0x1_0000;
  }

  /** For a generation `g`, adding `x` modulo 2^16 gives `g` back exactly when `x` is a
      multiple of 2^16. */
  lemma ModReturns(g: int, x: int)
    requires 0 <= g < 0x1_0000
    ensures (g + x) % 0x1_0000 == g <==> x % 0x1_0000 == 0
  {
    var y := x % 0x1_0000;
    ModAddAssoc(x, g);
    assert (g + x) % 0x1_0000 == (y + g) % 0x1_0000;
    if g + y >= 0x1_0000 {
      assert (y + g) % 0x1_0000 == y + g - 0x1_0000;
    } else {
      assert (y + g) % 0x1_0000 == y + g;
    }
  }

  /** A removed handle stays stale through any later operations until its slot has been freed
      65535 more times, when its generation wraps round to the handle's again. */
  lemma StaleUntilWrap<T>(s: Slots<T>, h: Handle, ops: seq<Op<T>>)
    requires WellFormed(s) && Live(s, h)
    ensures Live(Run(RemoveState(s, h), ops), h) <==>
      (1 + Frees(RemoveState(s, h), ops, h.index)) % 0x1_0000 == 0
  {
    var r := RemoveState(s, h);
    GenerationCountsFrees(r, ops, h.index);
    var f := Frees(r, ops, h.index);
    var g := h.generation as int;
    assert r.gens[h.index] as int == (g + 1) % 0x1_0000;
    ModAddAssoc(g + 1, f);
    assert Run(r, ops).gens[h.index] as int == (g + (1 + f)) % 0x1_0000;
    ModReturns(g, 1 + f);
  }

  /** The in-place table. `freeIndices` is the `Queue<ushort>`, front first. */
  class StableTable<T0(0)> {
    var freeIndices: seq<u16>
    var generations: array<u16>
    var column0: array<T0>

    ghost predicate Valid()
      reads this
    {
      && generations.Length == column0.Length < 0x1_0000
      && (forall k :: 0 <= k < |freeIndices| ==> freeIndices[k] as int < column0.Length)
      && generations as object != column0 as object
    }

    ghost function State(): (s: Slots<T0>)
      reads this, generations, column0
      requires Valid()
      ensures WellFormed(s)
    {
      Slots(freeIndices, generations[..], column0[..])
    }

    /** `new StableTable(capacity)`: all generations 0, the queue seeded with 0..capacity-1. */
    constructor (capacity: u16 := 256)
      ensures Valid() && fresh(generations) && fresh(column0)
      ensures column0.Length == capacity as int
      ensures FreshTable(State())
    {
      generations := new u16[capacity](_ => 0);
      column0 := new T0[capacity];
      freeIndices := [];
      new;
      var i: u16 := 0;
      while i < capacity
        invariant i <= capacity
        invariant fresh(generations) && fresh(column0) && generations as object != column0 as object
        invariant generations.Length == column0.Length == capacity as int
        invariant forall j :: 0 <= j < generations.Length ==> generations[j] == 0
        invariant freeIndices == Ascending(i as int)
      {
        freeIndices := freeIndices + [i];
        i := i + 1;
      }
    }

    /** `throwInvalidHandle(h)`. */
    method ThrowInvalidHandle(h: Handle) returns (r: Outcome)
      requires Valid()
      ensures r == Check(State(), h)
    {
      if h.index as int > column0.Length {
        return Fail(ArgumentOutOfRange);
      }
      if h.index as int >= generations.Length {
        return Fail(IndexOutOfRange);
      }
      if h.generation != generations[h.index] {
        return Fail(InvalidGeneration);
      }
      return Pass;
    }

    /** The indexer's `get`. */
    method Get(h: Handle) returns (r: Result<T0>)
      requires Valid()
      ensures r == GetResult(State(), h)
    {
      var check := ThrowInvalidHandle(h);
      if check.Fail? {
        return Err(check.fault);
      }
      return Ok(column0[h.index]);
    }

    /** The indexer's `set`. */
    method Set(h: Handle, value: T0) returns (r: Outcome)
      requires Valid()
      modifies column0
      ensures Valid()
      ensures r == Check(old(State()), h)
      ensures State() == SetState(old(State()), h, value)
    {
      r := ThrowInvalidHandle(h);
      if r.Pass? {
        column0[h.index] := value;
      }
    }

    method Add(value: T0) returns (r: Result<Handle>)
      requires Valid()
      modifies this, column0
      ensures Valid() && generations == old(generations) && column0 == old(column0)
      ensures r == AddResult(old(State()))
      ensures State() == AddState(old(State()), value)
    {
      if freeIndices == [] {
        return Err(QueueEmpty);
      }
      var newIdx := freeIndices[0];
      freeIndices := freeIndices[1..];
      column0[newIdx] := value;
      return Ok(Handle(newIdx, generations[newIdx]));
    }

    method Remove(handle: Handle) returns (r: Result<bool>)
      requires Valid()
      modifies this, generations
      ensures Valid() && generations == old(generations) && column0 == old(column0)
      ensures r == RemoveResult(old(State()), handle)
      ensures State() == RemoveState(old(State()), handle)
    {
      if handle.index as int > column0.Length {
        return Ok(false);
      }
      if handle.index as int >= generations.Length {
        return Err(IndexOutOfRange);
      }
      if handle.generation != generations[handle.index] {
        return Ok(false);
      }
      var check := ThrowInvalidHandle(handle);
      assert check.Pass?;
      generations[handle.index] := Bump(generations[handle.index]);
      freeIndices := freeIndices + [handle.index];
      return Ok(true);
    }
  }

  /** A caller's run on a table of capacity 4. The queue is FIFO, so the slot freed by
      `Remove(h0)` comes back only after slots 2 and 3, with generation 1. */
  method Scenario(a: int, b: int, c: int, d: int, e: int) {
    var t := new StableTable<int>(4);
    var h0 := t.Add(a);
    var h1 := t.Add(b);
    assert h0 == Ok(Handle(0, 0)) && h1 == Ok(Handle(1, 0));
    var removed := t.Remove(h0.value);
    assert removed == Ok(true);
    var stale := t.Get(h0.value);
    assert stale == Err(InvalidGeneration);
    var again := t.Remove(h0.value);
    assert again == Ok(false);
    var h2 := t.Add(c);
    var h3 := t.Add(d);
    var h4 := t.Add(e);
    assert h2 == Ok(Handle(2, 0)) && h3 == Ok(Handle(3, 0)) && h4 == Ok(Handle(0, 1));
    var full := t.Add(a);
    assert full == Err(QueueEmpty);
    var got := t.Get(h4.value);
    assert got == Ok(e);
    got := t.Get(h1.value);
    assert got == Ok(b);
    stale := t.Get(h0.value);
    assert stale == Err(InvalidGeneration);
  }

  /** A table made without a capacity has 256 free slots, and its first handle is slot 0. */
  method DefaultScenario(a: int) {
    var t := new StableTable<int>();
    assert t.column0.Length == 256;
    var h := t.Add(a);
    assert h == Ok(Handle(0, 0));
    var got := t.Get(h.value);
    assert got == Ok(a);
  }
}
