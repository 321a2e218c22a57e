/** The SDK's ring-buffer queue, against a plain first-in-first-out sequence. */
module ArrayQueues {
  import opened Wrappers

  /** An array cell: filled with null at construction, left undefined by a resize, or
      holding a value. */
  datatype Cell<T> = Null | Undefined | Value(value: T)

  /** Where position `x` of an endless repetition of `n` cells is found, at most one turn on. */
  ghost function Wrap(x: nat, n: nat): nat
    requires x < 2 * n
  {
    if x < n then x else x - n
  }

  /** A remainder by zero is NaN, which names no cell: as index 0 of an empty array does not. */
  function Remainder(x: nat, n: nat): (r: nat)
    ensures if n == 0 then r == 0 else r < n
  {
    if n == 0 then 0 else x % n
  }

  lemma WrapIsRemainder(x: nat, n: nat)
    requires x < 2 * n
    ensures Wrap(x, n) == Remainder(x, n)
  {
  }

  /** The cells a queue holds: `size` of them from `index` on, wrapping around. */
  ghost function Unrolled<T>(data: seq<T>, index: nat, size: nat): (s: seq<T>)
    requires size <= |data| && (index < |data| || size == 0)
    ensures |s| == size
    ensures forall i :: 0 <= i < size ==> s[i] == data[Wrap(index + i, |data|)]
  {
    seq(size, i requires 0 <= i < size && index < |data| => data[Wrap(index + i, |data|)])
  }

  class ArrayQueue<T> {
    var data: array<Cell<T>>
    var size: nat
    var index: nat

    /** A queue created without capacity counts its first element before it has a cell for it. */
    ghost predicate Valid()
      reads this
    {
      && (size <= data.Length || (data.Length == 0 && size == 1))
      && (index < data.Length || index == data.Length == 0)
    }

    ghost function Contents(): seq<Cell<T>>
      reads this, data
      requires Valid()
    {
      if size <= data.Length then Unrolled(data[..], index, size) else [Undefined]
    }

    /** Reading where the array has no cell gives undefined. */
    function CellAt(i: nat): Cell<T>
      reads this, data
    {
      if i < data.Length then data[i] else Undefined
    }

    constructor (capacity: Option<nat>)
      ensures Valid() && fresh(data) && Contents() == []
      ensures data.Length == match capacity case None => 256 case Some(n) => n
      ensures forall i :: 0 <= i < data.Length ==> data[i] == Null
    {
      data := new Cell<T>[capacity.GetOr(256)](_ => Null);
      size, index := 0, 0;
    }

    function IsEmpty(): bool
      reads this
    {
      size == 0
    }

    function Length(): (n: nat)
      reads this, data
      requires Valid()
      ensures n == |Contents()|
    {
      size
    }

    function Head(): (c: Cell<T>)
      reads this, data
      requires Valid()
      ensures c == if Contents() == [] then Null else Contents()[0]
    {
      if IsEmpty() then Null else CellAt(index)
    }

    /** Below capacity the value is appended. On a full queue the value is stored into the
        array that the resize has just replaced, so the queue gains an undefined cell instead. */
    method Enqueue(value: T)
      requires Valid()
      modifies this, data
      ensures Valid()
      ensures old(size < data.Length) ==>
        data == old(data) && Contents() == old(Contents()) + [Value(value)]
      ensures old(size >= data.Length) ==>
        fresh(data) && data.Length == 2 * old(size) && Contents() == old(Contents()) + [Undefined]
    {
      hide Remainder;
      var cells, n, start := data, size, index;
      ghost var before := Contents();
      if n + 1 > cells.Length {
        Resize();
        assert n < data.Length ==> data[..][n] == Undefined;
      } else {
        AppendLands(cells[..], start, n, Value(value));
        WrapIsRemainder(start + n, cells.Length);
      }
      if cells.Length > 0 {
        cells[Remainder(start + n, cells.Length)] := Value(value);
      }
      size := size + 1;
      if data == cells {
        assert data[..] == old(data[..])[Wrap(start + n, cells.Length) := Value(value)];
      } else {
        assert Contents() == before + [Undefined];
      }
    }

    /** What `Enqueue` is meant to do: the same steps, with the fields read again after a
        resize. Not the repository's code. Doubling no cells gains none, so there must be one. */
    method EnqueueIntended(value: T)
      requires Valid() && 0 < data.Length
      modifies this, data
      ensures Valid() && 0 < data.Length
      ensures Contents() == old(Contents()) + [Value(value)]
      ensures data.Length == old(if size < data.Length then data.Length else 2 * data.Length)
    {
      if size + 1 > data.Length {
        Resize();
      }
      Store(value);
    }

    /** The store of `EnqueueIntended`, once there is a free cell. */
    method Store(value: T)
      requires Valid() && size < data.Length
      modifies this, data
      ensures Valid() && data == old(data) && Contents() == old(Contents()) + [Value(value)]
    {
      hide Remainder, Unrolled;
      AppendLands(data[..], index, size, Value(value));
      WrapIsRemainder(index + size, data.Length);
      data[Remainder(index + size, data.Length)] := Value(value);
      assert data[..] == old(data[..])[Wrap(index + size, data.Length) := Value(value)];
      size := size + 1;
    }

    /** Drops the first element; does nothing on an empty queue. */
    method Dequeue()
      requires Valid()
      modifies this
      ensures Valid() && data == old(data)
      ensures Contents() == if old(Contents()) == [] then [] else old(Contents())[1..]
    {
      hide Remainder, Unrolled;
      if IsEmpty() {
        assert Contents() == [];
        return;
      }
      ghost var cells, start, n := data[..], index, size;
      if data.Length > 0 {
        DropFirst(cells, start, n);
        WrapIsRemainder(index + 1, data.Length);
      }
      index := Remainder(index + 1, data.Length);
      size := size - 1;
      if data.Length > 0 {
        assert Contents() == Unrolled(cells, Wrap(start + 1, |cells|), n - 1);
      } else {
        assert Contents() == [];
      }
    }

    /** Copies the wrapped contents in order to the front of an array twice their size. The
        rest of the new array is undefined. */
    method Resize()
      requires Valid()
      modifies this
      ensures Valid() && fresh(data) && data.Length == 2 * size
      ensures size == old(size) && index == 0
      ensures Contents() == old(Contents())
      ensures forall i :: size <= i < data.Length ==> data[i] == Undefined
    {
      hide Remainder, Unrolled;
      ghost var before := Contents();
      var newData := new Cell<T>[size * 2](_ => Undefined);
      for i := 0 to size
        invariant data == old(data) && size == old(size) && index == old(index) && Contents() == before
        invariant forall j :: 0 <= j < i ==> newData[j] == before[j]
        invariant forall j :: i <= j < newData.Length ==> newData[j] == Undefined
      {
        if data.Length > 0 {
          WrapIsRemainder(index + i, data.Length);
        }
        newData[i] := CellAt(Remainder(index + i, data.Length));
      }
      data := newData;
      index := 0;
    }

    /** Any schedule of operations, through any number of wrap-arounds and resizes. */
    method Perform(ops: seq<Operation<T>>)
      requires Valid()
      modifies this, data
      ensures Valid() && (data == old(data) || fresh(data))
      ensures Ring(Contents(), data.Length) == AfterAll(old(Ring(Contents(), data.Length)), ops)
    {
      for i := 0 to |ops|
        invariant Valid() && (data == old(data) || fresh(data))
        invariant Ring(Contents(), data.Length) == AfterAll(old(Ring(Contents(), data.Length)), ops[..i])
      {
        assert ops[..i + 1][..i] == ops[..i];
        match ops[i] {
          case Enqueue(value) => Enqueue(value);
          case Dequeue => Dequeue();
        }
      }
      assert ops[..|ops|] == ops;
    }
  }

  // ------------------------------------------------------------------------------- schedules

  datatype Operation<T> = Enqueue(value: T) | Dequeue

  /** A queue as its users see it. */
  datatype Ring<T> = Ring(contents: seq<Cell<T>>, capacity: nat)

  ghost function After<T>(q: Ring<T>, op: Operation<T>): Ring<T> {
    match op
    case Enqueue(value) =>
      if |q.contents| < q.capacity then q.(contents := q.contents + [Value(value)])
      else Ring(q.contents + [Undefined], 2 * |q.contents|)
    case Dequeue => q.(contents := if q.contents == [] then [] else q.contents[1..])
  }

  ghost function AfterAll<T>(q: Ring<T>, ops: seq<Operation<T>>): Ring<T> {
    if ops == [] then q else After(AfterAll(q, ops[..|ops| - 1]), ops[|ops| - 1])
  }

  /** What a first-in-first-out queue holds after the schedule. */
  ghost function Fifo<T>(contents: seq<Cell<T>>, ops: seq<Operation<T>>): seq<Cell<T>> {
    if ops == [] then contents
    else
      var s := Fifo(contents, ops[..|ops| - 1]);
      match ops[|ops| - 1]
      case Enqueue(value) => s + [Value(value)]
      case Dequeue => if s == [] then [] else s[1..]
  }

  /** The i-th operation is an enqueue that finds `capacity` elements already queued. */
  ghost predicate Overflows<T>(contents: seq<Cell<T>>, capacity: nat, ops: seq<Operation<T>>, i: nat)
    requires i < |ops|
  {
    ops[i].Enqueue? && capacity <= |Fifo(contents, ops[..i])|
  }

  /** No enqueue of the schedule does. */
  ghost predicate FitsWithin<T>(contents: seq<Cell<T>>, capacity: nat, ops: seq<Operation<T>>) {
    forall i :: 0 <= i < |ops| ==> !Overflows(contents, capacity, ops, i)
  }

  ghost predicate AgreesWithFifo<T>(q: Ring<T>, ops: seq<Operation<T>>) {
    AfterAll(q, ops).contents == Fifo(q.contents, ops)
  }

  /** Order and number of elements are always those of the plain sequence; all that can happen
      to a value is that it is lost. */
  lemma {:induction false} OnlyValuesAreLost<T>(q: Ring<T>, ops: seq<Operation<T>>)
    ensures var s, fifo := AfterAll(q, ops).contents, Fifo(q.contents, ops);
      |s| == |fifo| && forall k :: 0 <= k < |s| ==> s[k] == fifo[k] || s[k] == Undefined
  {
    if ops != [] {
      OnlyValuesAreLost(q, ops[..|ops| - 1]);
    }
  }

  lemma PrefixOverflows<T>(contents: seq<Cell<T>>, capacity: nat, ops: seq<Operation<T>>, n: nat)
    requires n <= |ops|
    ensures forall i: nat :: i < n ==>
      (Overflows(contents, capacity, ops[..n], i) <==> Overflows(contents, capacity, ops, i))
  {
    forall i: nat | i < n
      ensures Overflows(contents, capacity, ops[..n], i) <==> Overflows(contents, capacity, ops, i)
    {
      assert ops[..n][..i] == ops[..i];
    }
  }

  lemma {:induction false} FittingIsFifo<T>(q: Ring<T>, ops: seq<Operation<T>>)
    requires FitsWithin(q.contents, q.capacity, ops)
    ensures AfterAll(q, ops) == Ring(Fifo(q.contents, ops), q.capacity)
  {
    if ops != [] {
      var last := |ops| - 1;
      PrefixOverflows(q.contents, q.capacity, ops, last);
      FittingIsFifo(q, ops[..last]);
      assert !Overflows(q.contents, q.capacity, ops, last);
    }
  }

  /** The queue agrees with the plain sequence all through a schedule exactly when no enqueue
      of it finds the queue full, and then it never grows. */
  lemma FifoIffFits<T>(q: Ring<T>, ops: seq<Operation<T>>)
    ensures (forall n :: 0 <= n <= |ops| ==> AgreesWithFifo(q, ops[..n])) <==> FitsWithin(q.contents, q.capacity, ops)
    ensures FitsWithin(q.contents, q.capacity, ops) ==> AfterAll(q, ops).capacity == q.capacity
  {
    hide Overflows;
    if FitsWithin(q.contents, q.capacity, ops) {
      forall n | 0 <= n <= |ops| ensures AfterAll(q, ops[..n]) == Ring(Fifo(q.contents, ops[..n]), q.capacity) {
        PrefixOverflows(q.contents, q.capacity, ops, n);
        FittingIsFifo(q, ops[..n]);
      }
      assert ops[..|ops|] == ops;
    } else {
      var i := FirstOverflow(q.contents, q.capacity, ops);
      FirstOverflowLoses(q, ops, i);
    }
  }

  lemma {:induction false} FirstOverflow<T>(contents: seq<Cell<T>>, capacity: nat, ops: seq<Operation<T>>)
    returns (i: nat)
    requires !FitsWithin(contents, capacity, ops)
    ensures i < |ops| && Overflows(contents, capacity, ops, i) && FitsWithin(contents, capacity, ops[..i])
    decreases |ops|
  {
    hide Overflows;
    i :| 0 <= i < |ops| && Overflows(contents, capacity, ops, i);
    if !FitsWithin(contents, capacity, ops[..i]) {
      PrefixOverflows(contents, capacity, ops, i);
      var j := FirstOverflow(contents, capacity, ops[..i]);
      assert ops[..i][..j] == ops[..j];
      i := j;
    }
  }

  /** The first enqueue on a full queue adds an undefined cell instead of its value. */
  lemma FirstOverflowLoses<T>(q: Ring<T>, ops: seq<Operation<T>>, i: nat)
    requires i < |ops| && Overflows(q.contents, q.capacity, ops, i)
    requires FitsWithin(q.contents, q.capacity, ops[..i])
    ensures !AgreesWithFifo(q, ops[..i + 1])
  {
    hide FitsWithin;
    var before, upTo := ops[..i], ops[..i + 1];
    FittingIsFifo(q, before);
    assert upTo[..i] == before && upTo[i] == ops[i];
    var s := Fifo(q.contents, before);
    assert AfterAll(q, upTo).contents == s + [Undefined];
    assert Fifo(q.contents, upTo) == s + [Value(ops[i].value)];
    assert (s + [Undefined])[|s|] != (s + [Value(ops[i].value)])[|s|];
  }

  /** A queue of one cell that is given two values keeps only the first. */
  lemma SecondOfTwoIsLost<T>(a: T, b: T)
    ensures AfterAll(Ring([], 1), [Enqueue(a), Enqueue(b)]) == Ring([Value(a), Undefined], 2)
  {
    var ops := [Enqueue(a), Enqueue(b)];
    assert ops[..1] == [Enqueue(a)] && ops[..1][..0] == [];
    assert AfterAll(Ring([], 1), ops[..1]) == Ring([Value(a)], 1);
  }

  /** The cell one past the contents is free, and writing it appends. */
  lemma AppendLands<T>(data: seq<T>, index: nat, size: nat, x: T)
    requires size < |data| && index < |data|
    ensures var free := Wrap(index + size, |data|);
      Unrolled(data[free := x], index, size + 1) == Unrolled(data, index, size) + [x]
  {
  }

  lemma DropFirst<T>(data: seq<T>, index: nat, size: nat)
    requires 0 < size <= |data| && index < |data|
    ensures Unrolled(data, Wrap(index + 1, |data|), size - 1) == Unrolled(data, index, size)[1..]
  {
  }
}
