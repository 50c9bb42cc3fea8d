/** `Table<T>.Iterate`: an enumerator over the row indices 0..Count-1 of a column table whose
    row count is the static field `Table<T>.Count`. */
module Tables {
  import opened Machine

  /** A row of a table (`IRow`): the index into its columns. */
  datatype Row = Row(index: int32)

  /** The rows a `foreach` yields when it drives an enumerator from position `index`:
      `MoveNext` increments first and then compares with `capacity`. */
  function Rows(index: int32, capacity: int32): seq<int>
    decreases capacity as int - index as int
  {
    if index as int + 1 < capacity as int then [index as int + 1] + Rows(index + 1, capacity) else []
  }

  lemma {:induction false} RowsFrom(index: int32, capacity: int32)
    ensures |Rows(index, capacity)| ==
      if index as int + 1 < capacity as int then capacity as int - index as int - 1 else 0
    ensures forall k :: 0 <= k < |Rows(index, capacity)| ==> Rows(index, capacity)[k] == index as int + 1 + k
    decreases capacity as int - index as int
  {
    if index as int + 1 < capacity as int {
      RowsFrom(index + 1, capacity);
    }
  }

  /** A `foreach` over `Iterate()` yields rows 0, 1, ..., Count-1 and nothing for a `Count`
      that is not positive. */
  lemma IterateYieldsRows(count: int32)
    ensures Rows(-1, count) == seq(if count < 0 then 0 else count as int, k => k)
  {
    RowsFrom(-1, count);
  }

  /** The static state of one `Table<T>`: its row count. */
  class Table {
    var Count: int32

    constructor ()
      ensures Count == 0
    {
      Count := 0;
    }

    method Iterate() returns (e: Enumeratorable)
      ensures fresh(e) && e.index == -1 && e.capacity == Count
      ensures e.Remaining() == Rows(-1, Count)
    {
      e := new Enumeratorable(-1, Count);
    }
  }

  /** The `Enumeratorable` struct; `GetEnumerator` returns a copy of it. */
  class Enumeratorable {
    var index: int32
    var capacity: int32

    constructor (index: int32, capacity: int32)
      ensures this.index == index && this.capacity == capacity
    {
      this.index := index;
      this.capacity := capacity;
    }

    /** The rows the rest of a `foreach` will yield. */
    ghost function Remaining(): seq<int>
      reads this
    {
      Rows(index, capacity)
    }

    method GetEnumerator() returns (e: Enumeratorable)
      ensures fresh(e) && e.index == index && e.capacity == capacity
    {
      e := new Enumeratorable(index, capacity);
    }

    /** `Current`: a fresh row value whose index is the cursor. */
    method Current() returns (r: Row)
      ensures r.index == index
    {
      r := Row(index);
    }

    method MoveNext() returns (more: bool)
      modifies this
      ensures index == Inc32(old(index)) && capacity == old(capacity)
      ensures more == (index < capacity)
      ensures old(index) < 0x7FFF_FFFF ==>
        && (more <==> old(Remaining()) != [])
        && (more ==> old(Remaining()) == [index as int] + Remaining())
    {
      index := Inc32(index);
      more := index < capacity;
    }
  }

  /** A `foreach` over a table of three rows. */
  method Scenario() {
    var t := new Table();
    t.Count := 3;
    var e := t.Iterate();
    var more := e.MoveNext();
    var row := e.Current();
    assert more && row == Row(0);
    more := e.MoveNext();
    more := e.MoveNext();
    row := e.Current();
    assert more && row == Row(2);
    more := e.MoveNext();
    assert !more;
  }
}
