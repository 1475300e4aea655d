/**
 fmt's growing buffer: an array that is replaced by a larger one when needed, seen from
 outside as a sequence.
 */
module FmtBuffer {

  const InlineBufferSize: nat := 500

  /** What one operation does to the contents; a resize may leave anything in new cells. */
  datatype BufferOp<T> =
    | PushBack(value: T)
    | Append(values: seq<T>)
    | Resize(newSize: nat)
    | Reserve(capacity: nat)
    | Clear

  ghost predicate Follows<T>(s: seq<T>, op: BufferOp<T>, s': seq<T>) {
    match op
    case PushBack(value) => s' == s + [value]
    case Append(values) => s' == s + values
    case Resize(n) => |s'| == n && if n <= |s| then s' == s[..n] else s'[..|s|] == s
    case Reserve(_) => s' == s
    case Clear => s' == []
  }

  /** The size an operation needs room for. */
  function Needed<T>(size: nat, op: BufferOp<T>): (r: nat) {
    match op
    case PushBack(_) => size + 1
    case Append(values) => size + |values|
    case Resize(n) => n
    case Reserve(n) => n
    case Clear => 0
  }

  /** Capacity stays when the need fits, and otherwise grows by half or to the need. */
  predicate GrowsFor(capacity: nat, needed: nat, capacity': nat) {
    if needed <= capacity then capacity' == capacity
    else capacity' >= needed && 2 * capacity' >= 3 * capacity - 1
         && (capacity' == needed || capacity' == capacity + capacity / 2)
  }

  class MemoryBuffer<T(0)> {
    var data: array<T>
    var size: nat

    ghost predicate Valid()
      reads this
    {
      size <= data.Length
    }

    ghost function Contents(): (r: seq<T>)
      requires Valid()
      reads this, data
    {
      data[..size]
    }

    constructor ()
      ensures Valid() && fresh(data) && Contents() == [] && data.Length == 500
    {
      data := new T[InlineBufferSize];
      size := 0;
    }

    /** Moves the contents into a larger array. */
    method Grow(needed: nat)
      requires Valid() && needed > data.Length
      modifies this
      ensures Valid() && fresh(data) && size == old(size) && Contents() == old(Contents())
      ensures GrowsFor(old(data.Length), needed, data.Length)
    {
      var capacity := data.Length + data.Length / 2;
      if needed > capacity { capacity := needed; }
      var larger := new T[capacity];
      for i := 0 to size
        modifies larger
        invariant larger[..i] == data[..i]
      {
        larger[i] := data[i];
        assert larger[..i + 1] == larger[..i] + [data[i]];
        assert data[..i + 1] == data[..i] + [data[i]];
      }
      data := larger;
    }

    method ResizeTo(newSize: nat)
      requires Valid()
      modifies this
      ensures Valid() && (data == old(data) || fresh(data))
      ensures Follows(old(Contents()), Resize(newSize), Contents())
      ensures GrowsFor(old(data.Length), newSize, data.Length)
      ensures size == newSize
    {
      ghost var before := Contents();
      if newSize > data.Length { Grow(newSize); }
      size := newSize;
      if newSize <= |before| {
        assert Contents() == before[..newSize];
      } else {
        assert Contents()[..|before|] == before;
      }
    }

    method ReserveFor(capacity: nat)
      requires Valid()
      modifies this
      ensures Valid() && (data == old(data) || fresh(data))
      ensures Contents() == old(Contents()) && size == old(size)
      ensures GrowsFor(old(data.Length), capacity, data.Length)
    {
      if capacity > data.Length { Grow(capacity); }
    }

    method ClearAll()
      requires Valid()
      modifies this
      ensures Valid() && data == old(data) && Contents() == []
    {
      size := 0;
    }

    method Push(value: T)
      requires Valid()
      modifies this, data
      ensures Valid() && (data == old(data) || fresh(data))
      ensures Contents() == old(Contents()) + [value]
      ensures GrowsFor(old(data.Length), old(size) + 1, data.Length)
    {
      if size == data.Length { Grow(size + 1); }
      data[size] := value;
      size := size + 1;
    }

    method AppendAll(values: seq<T>)
      requires Valid()
      modifies this, data
      ensures Valid() && (data == old(data) || fresh(data))
      ensures Contents() == old(Contents()) + values
      ensures GrowsFor(old(data.Length), old(size) + |values|, data.Length)
    {
      var newSize := size + |values|;
      if newSize > data.Length { Grow(newSize); }
      ghost var before := Contents();
      for i := 0 to |values|
        modifies data
        invariant data[..size + i] == before + values[..i]
      {
        data[size + i] := values[i];
        assert data[..size + i + 1] == data[..size + i] + [values[i]];
        assert values[..i + 1] == values[..i] + [values[i]];
      }
      assert values[..|values|] == values;
      size := newSize;
    }

    method Apply(op: BufferOp<T>)
      requires Valid()
      modifies this, data
      ensures Valid() && (data == old(data) || fresh(data))
      ensures Follows(old(Contents()), op, Contents())
      ensures GrowsFor(old(data.Length), Needed(old(size), op), data.Length)
    {
      match op
      case PushBack(value) => Push(value);
      case Append(values) => AppendAll(values);
      case Resize(newSize) => ResizeTo(newSize);
      case Reserve(capacity) => ReserveFor(capacity);
      case Clear => ClearAll();
    }
  }

  /** A history of contents in which each step follows from its operation. */
  ghost predicate History<T>(trace: seq<seq<T>>, ops: seq<BufferOp<T>>) {
    |trace| == |ops| + 1 && forall i :: 0 <= i < |ops| ==> Follows(trace[i], ops[i], trace[i + 1])
  }

  /** Every run of operations goes through such a history, and never shrinks the array. */
  method Run<T(0)>(b: MemoryBuffer<T>, ops: seq<BufferOp<T>>) returns (ghost trace: seq<seq<T>>)
    requires b.Valid()
    modifies b, b.data
    ensures b.Valid() && (b.data == old(b.data) || fresh(b.data)) && b.data.Length >= old(b.data.Length)
    ensures History(trace, ops) && trace[0] == old(b.Contents()) && trace[|ops|] == b.Contents()
  {
    trace := [b.Contents()];
    for i := 0 to |ops|
      invariant b.Valid() && (b.data == old(b.data) || fresh(b.data)) && b.data.Length >= old(b.data.Length)
      invariant History(trace, ops[..i]) && trace[0] == old(b.Contents()) && trace[i] == b.Contents()
    {
      b.Apply(ops[i]);
      trace := trace + [b.Contents()];
    }
    assert ops[..|ops|] == ops;
  }
}
