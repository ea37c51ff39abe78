/** The growable array: in-place operations refine sequence operations, and doubling keeps the
    copying linear in the number of additions. */
module RiakArrays {
  import opened Wire
  import opened Growth

  /** The last three are no error codes. OutOfBounds: memory outside the allocation is written or read.
      Corrupt: the length becomes negative. Hangs: the doubling loop does not end. */
  datatype ArrayError = Ok | OutOfRange | OutOfBounds | Corrupt | Hangs


  /** The cast `(riak_int64_t)pos` of an unsigned 64-bit position. */
  function AsInt64(pos: nat): int
    requires pos < TWO_TO_THE_64
  {
    if pos < TWO_TO_THE_63 then pos else pos - TWO_TO_THE_64
  }

  /** Where the shifting loop of riak_array_remove starts. */
  function StartOfShift(pos: nat): int {
    if pos < TWO_TO_THE_63 then pos else AsInt32(pos)
  }

  // ----- Specification -----

  /** What an array holds, its capacity, and the slots copied by reallocations so far. */
  datatype Contents<T> = Contents(items: seq<T>, capacity: nat, copied: nat)

  datatype Op<T> =
    | Push(elem: T)
    | Insert(pos: nat, elem: T)
    | Remove(pos: nat)
    | Pop
    | Get(pos: nat)
    | Set(pos: nat, elem: T)
  {
    predicate Adds() {
      Push? || Insert?
    }

    /** Positions are unsigned 64-bit words. */
    predicate Representable() {
      Insert? || Remove? || Get? || Set? ==> pos < TWO_TO_THE_64
    }
  }

  /** The doubling loop. */
  function Doubled(capacity: nat, size: nat): (r: nat)
    requires capacity >= 1
    ensures r >= capacity && r >= size
    decreases size - capacity
  {
    if capacity >= size then capacity else Doubled(2 * capacity, size)
  }

  function WithRoom<T>(c: Contents<T>, size: nat): Contents<T>
    requires c.capacity >= 1
  {
    if size > c.capacity then c.(capacity := Doubled(c.capacity, size), copied := c.copied + c.capacity) else c
  }

  function Without<T>(items: seq<T>, pos: nat): (r: seq<T>)
    requires pos < |items|
  {
    items[..pos] + items[pos + 1..]
  }

  /** One operation. A position of 2^63 or more passes the signed test. It then addresses memory outside
      the allocation, except in a removal, which goes on with its low 32 bits. */
  function Apply<T>(c: Contents<T>, op: Op<T>): (r: (Contents<T>, ArrayError))
    requires op.Representable()
  {
    var n := |c.items|;
    match op
    case Push(e) =>
      if c.capacity == 0 then (c, Hangs)
      else (WithRoom(c, n + 1).(items := c.items + [e]), Ok)
    case Insert(pos, e) =>
      if n < pos < TWO_TO_THE_63 then (c, OutOfRange)
      else if c.capacity == 0 then (c, Hangs)
      else if pos >= TWO_TO_THE_63 then (c, OutOfBounds)
      else (WithRoom(c, n + 1).(items := c.items[..pos] + [e] + c.items[pos..]), Ok)
    case Remove(pos) =>
      if n <= pos < TWO_TO_THE_63 then (c, OutOfRange)
      else if StartOfShift(pos) < 0 then (c, OutOfBounds)
      else if n == 0 then (c, Corrupt)
      else (c.(items := Without(c.items, Min(StartOfShift(pos), n - 1))), Ok)
    case Pop =>
      if n == 0 then (c, OutOfRange) else (c.(items := c.items[..n - 1]), Ok)
    case Get(pos) =>
      (c, if pos >= TWO_TO_THE_63 then OutOfBounds else if pos >= n then OutOfRange else Ok)
    case Set(pos, e) =>
      if pos >= TWO_TO_THE_63 then (c, OutOfBounds)
      else if pos >= n then (c, OutOfRange)
      else (c.(items := c.items[pos := e]), Ok)
  }

  // ----- The array on the heap -----

  /** The shifting loop of riak_array_insert: open a gap at `pos`. */
  method ShiftUp<T>(a: array<T>, pos: nat, length: nat)
    requires pos <= length < a.Length
    modifies a
    ensures a[..pos] == old(a[..pos]) && a[pos + 1..length + 1] == old(a[pos..length])
  {
    var j := length;
    while j > pos
      invariant pos <= j <= length
      invariant a[..j] == old(a[..j])
      invariant a[j + 1..length + 1] == old(a[j..length])
    {
      a[j] := a[j - 1];
      j := j - 1;
    }
  }

  method InsertInto<T>(a: array<T>, pos: nat, length: nat, elem: T)
    requires pos <= length < a.Length
    modifies a
    ensures a[..length + 1] == old(a[..length])[..pos] + [elem] + old(a[..length])[pos..]
  {
    ghost var before, after := a[..pos], a[pos..length];
    if length > 0 && pos < length {
      ShiftUp(a, pos, length);
    }
    a[pos] := elem;
    assert a[..pos] == before;
    assert a[pos + 1..length + 1] == after;
    assert a[..length + 1] == a[..pos] + [a[pos]] + a[pos + 1..length + 1];
  }

  /** The shifting loop of riak_array_remove: close the gap at `pos`. The last turn copies the slot
      behind the last element, which may lie behind the allocation; then it stores any value. */
  method ShiftDown<T(0)>(a: array<T>, pos: nat, length: nat) returns (overread: bool)
    requires pos < length <= a.Length
    modifies a
    ensures a[..pos] == old(a[..pos]) && a[pos..length - 1] == old(a[pos + 1..length])
    ensures overread <==> length == a.Length
  {
    overread := false;
    for j := pos to length
      invariant a[..pos] == old(a[..pos])
      invariant forall i :: pos <= i < j && i < length - 1 ==> a[i] == old(a[i + 1])
      invariant forall i :: j <= i < length ==> a[i] == old(a[i])
      invariant overread <==> j == length == a.Length
    {
      if j + 1 < a.Length {
        a[j] := a[j + 1];
      } else {
        overread := true;
        a[j] := *;
      }
    }
  }

  class RiakArray<T(0)> {
    var length: nat
    var capacity: nat
    var slots: array<T>
    const cleared: T
    ghost var copied: nat

    ghost predicate Valid()
      reads this
    {
      slots.Length == capacity && length <= capacity
    }

    ghost function Value(): Contents<T>
      requires Valid()
      reads this, slots
    {
      Contents(slots[..length], capacity, copied)
    }

    constructor (size: nat, cleared: T)
      ensures Valid() && fresh(slots) && Value() == Contents([], size, 0)
    {
      this.cleared := cleared;
      length, capacity, copied := 0, size, 0;
      slots := new T[size](i => cleared);
    }

    /** riak_array_resize. With no capacity to double, its loop does not end. */
    method Resize(size: nat) returns (err: ArrayError)
      requires Valid()
      modifies this
      ensures Valid() && length == old(length) && (slots == old(slots) || fresh(slots))
      ensures err == if size > 0 && old(capacity) == 0 then Hangs else Ok
      ensures err == Ok ==> capacity >= size
      ensures Value() == if old(capacity) > 0 then WithRoom(old(Value()), size) else old(Value())
    {
      if size > capacity {
        if capacity == 0 {
          return Hangs;
        }
        var newCap := capacity;
        while newCap < size
          invariant capacity <= newCap && Doubled(newCap, size) == Doubled(capacity, size)
          decreases size - newCap
        {
          newCap := newCap * 2;
        }
        slots := ArrayRealloc(slots, capacity, newCap, cleared);
        copied := copied + capacity;
        capacity := newCap;
      }
      return Ok;
    }

    method InsertAt(pos: nat, elem: T) returns (err: ArrayError)
      requires Valid() && pos < TWO_TO_THE_64
      modifies this, slots
      ensures Valid() && (slots == old(slots) || fresh(slots))
      ensures (Value(), err) == Apply(old(Value()), Insert(pos, elem))
      ensures err == Ok ==> pos <= old(length) < length && slots[pos] == elem
    {
      if AsInt64(pos) > length {
        return OutOfRange;
      }
      if AsInt64(pos) < 0 {
        // the array may still grow before the element is stored outside it
        return if capacity == 0 then Hangs else OutOfBounds;
      }
      err := Resize(length + 1);
      if err != Ok {
        return;
      }
      InsertInto(slots, pos, length, elem);
      length := length + 1;
    }

    /** riak_array_remove. Its last turn copies the slot behind the last element; `overread` says
        that this slot lies behind the allocation. What it held cannot be seen afterwards. */
    method RemoveAt(pos: nat) returns (err: ArrayError, overread: bool)
      requires Valid() && pos < TWO_TO_THE_64
      modifies this, slots
      ensures Valid() && slots == old(slots)
      ensures (Value(), err) == Apply(old(Value()), Remove(pos))
      ensures overread <==> err == Ok && StartOfShift(pos) < old(length) == capacity
    {
      overread := false;
      if AsInt64(pos) > length - 1 {
        return OutOfRange, false;
      }
      var j := StartOfShift(pos);
      if j < 0 {
        return OutOfBounds, false;
      }
      if length == 0 {
        return Corrupt, false;
      }
      ghost var items, gap := slots[..length], Min(j, length - 1);
      if j < length {
        overread := ShiftDown(slots, j, length);
      }
      length := length - 1;
      assert slots[..length] == Without(items, gap);
      err := Ok;
    }

    method PushBack(elem: T) returns (err: ArrayError)
      requires Valid()
      modifies this, slots
      ensures Valid() && (slots == old(slots) || fresh(slots))
      ensures (Value(), err) == Apply(old(Value()), Push(elem))
      ensures err == Ok ==> length == old(length) + 1 && slots[length - 1] == elem
    {
      err := Resize(length + 1);
      if err != Ok {
        return;
      }
      ghost var items := slots[..length];
      slots[length] := elem;
      length := length + 1;
      assert slots[..length] == items + [elem];
    }

    method PopBack() returns (err: ArrayError, elem: T)
      requires Valid()
      modifies this
      ensures Valid() && slots == old(slots)
      ensures (Value(), err) == Apply(old(Value()), Pop)
      ensures err == Ok ==> old(length) > 0 && elem == old(slots[length - 1])
    {
      if length > 0 {
        length := length - 1;
        assert slots[..length] == old(slots[..length])[..length];
        return Ok, slots[length];
      }
      return OutOfRange, cleared;
    }

    method At(pos: nat) returns (err: ArrayError, elem: T)
      requires Valid() && pos < TWO_TO_THE_64
      ensures (Value(), err) == Apply(Value(), Get(pos))
      ensures err == Ok ==> pos < length && elem == slots[pos]
    {
      if AsInt64(pos) > length - 1 {
        return OutOfRange, cleared;
      }
      if AsInt64(pos) < 0 {
        return OutOfBounds, cleared;
      }
      return Ok, slots[pos];
    }

    method Put(pos: nat, elem: T) returns (err: ArrayError)
      requires Valid() && pos < TWO_TO_THE_64
      modifies slots
      ensures Valid()
      ensures (Value(), err) == Apply(old(Value()), Set(pos, elem))
      ensures err == Ok ==> pos < length && slots[pos] == elem
      ensures forall i :: 0 <= i < slots.Length && (err == Ok ==> i != pos) ==> slots[i] == old(slots[i])
    {
      if AsInt64(pos) > length - 1 {
        return OutOfRange;
      }
      if AsInt64(pos) < 0 {
        return OutOfBounds;
      }
      slots[pos] := elem;
      return Ok;
    }
  }

  // ----- Runs -----

  /** A capacity doubled k times. */
  function Doublings(c0: nat, k: nat): nat {
    if k == 0 then c0 else 2 * Doublings(c0, k - 1)
  }

  lemma {:induction false} DoublingsGrow(c0: nat, k: nat)
    ensures if c0 == 0 then Doublings(c0, k) == 0 else Doublings(c0, k) > k
  {
    if k > 0 { DoublingsGrow(c0, k - 1); }
  }

  /** The doubling loop ends exactly when there is a capacity to double, or nothing to do. */
  lemma DoublingEndsExactlyWhen(capacity: nat, size: nat)
    ensures (exists k: nat :: Doublings(capacity, k) >= size) <==> capacity >= 1 || size == 0
  {
    DoublingsGrow(capacity, size);
    forall k: nat ensures capacity == 0 ==> Doublings(capacity, k) == 0 {
      DoublingsGrow(capacity, k);
    }
    if size == 0 {
      assert Doublings(capacity, 0) >= size;
    }
  }

  predicate AllRepresentable<T>(ops: seq<Op<T>>) {
    forall i :: 0 <= i < |ops| ==> ops[i].Representable()
  }

  /** The contents after a run of operations on a new array. */
  function After<T>(c0: nat, ops: seq<Op<T>>): (c: Contents<T>)
    requires AllRepresentable(ops)
    ensures c.capacity == 0 <==> c0 == 0
  {
    if ops == [] then Contents([], c0, 0)
    else
      var last := ops[|ops| - 1];
      assert last.Representable();
      Apply(After(c0, ops[..|ops| - 1]), last).0
  }

  /** The longest the array has been. */
  function MaxLength<T>(c0: nat, ops: seq<Op<T>>): nat
    requires AllRepresentable(ops)
  {
    if ops == [] then 0
    else
      var before := MaxLength(c0, ops[..|ops| - 1]);
      if before >= |After(c0, ops).items| then before else |After(c0, ops).items|
  }

  /** An array made without capacity stays empty. */
  lemma {:induction false} NothingFitsWithoutCapacity<T>(ops: seq<Op<T>>)
    requires AllRepresentable(ops)
    ensures After(0, ops) == Contents([], 0, 0)
    decreases |ops|
  {
    if ops != [] {
      NothingFitsWithoutCapacity(ops[..|ops| - 1]);
    }
  }

  function Additions<T>(ops: seq<Op<T>>): nat {
    if ops == [] then 0
    else Additions(ops[..|ops| - 1]) + if ops[|ops| - 1].Adds() then 1 else 0
  }

  ghost predicate IsDoubling(c0: nat, capacity: nat) {
    exists k: nat :: capacity == Doublings(c0, k)
  }

  lemma DoubledOnce(c0: nat, capacity: nat)
    requires capacity >= 1 && IsDoubling(c0, capacity)
    ensures Doubled(capacity, capacity + 1) == 2 * capacity
    ensures IsDoubling(c0, 2 * capacity)
  {
    assert Doubled(2 * capacity, capacity + 1) == 2 * capacity;
    var k: nat :| capacity == Doublings(c0, k);
    assert 2 * capacity == Doublings(c0, k + 1);
  }

  /** What copying has cost, for the greatest length and the number of additions so far. */
  ghost predicate Cheap<T>(c0: nat, c: Contents<T>, most: nat, additions: nat) {
    && |c.items| <= c.capacity && |c.items| <= most <= additions
    && c.copied == c.capacity - c0
    && IsDoubling(c0, c.capacity)
    && c.capacity <= Max(c0, 2 * (most - 1))
  }

  lemma StepIsCheap<T>(c0: nat, c: Contents<T>, op: Op<T>, most: nat, additions: nat)
    requires c0 >= 1 && c.capacity >= 1 && op.Representable() && Cheap(c0, c, most, additions)
    ensures var c' := Apply(c, op).0;
            Cheap(c0, c', Max(most, |c'.items|), additions + if op.Adds() then 1 else 0)
  {
    if op.Adds() && |c.items| == c.capacity {
      DoubledOnce(c0, c.capacity);
    }
  }

  /** Amortised cost, over every run from any capacity c0 of at least one: the slots copied by
      reallocations are exactly the capacity gained; the capacity is c0 doubled some number of
      times and stays below twice the greatest length; so copies are fewer than two for each
      addition. */
  lemma {:induction false} CopyingIsLinear<T>(c0: nat, ops: seq<Op<T>>)
    requires c0 >= 1 && AllRepresentable(ops)
    ensures Cheap(c0, After(c0, ops), MaxLength(c0, ops), Additions(ops))
    ensures Additions(ops) > 0 ==> After(c0, ops).copied < 2 * Additions(ops)
    decreases |ops|
  {
    if ops == [] {
      assert c0 == Doublings(c0, 0);
    } else {
      var init, last := ops[..|ops| - 1], ops[|ops| - 1];
      CopyingIsLinear(c0, init);
      StepIsCheap(c0, After(c0, init), last, MaxLength(c0, init), Additions(init));
    }
  }

  /** The position names an element, or for an insertion a place between elements. */
  predicate InRange<T>(c: Contents<T>, op: Op<T>) {
    match op
    case Push(_) => true
    case Insert(pos, _) => pos <= |c.items|
    case Pop => c.items != []
    case Remove(pos) => pos < |c.items|
    case Get(pos) => pos < |c.items|
    case Set(pos, _) => pos < |c.items|
  }

  /** An operation whose outcome is not OK leaves the contents as they were. Positions below 2^63 are
      tested exactly: out of range is an error code, and in range there is success, given a capacity to
      double. From 2^63 on there is never an error code: reading, writing and inserting leave the
      allocation; removing does so for half of the positions, and for the other half takes an element
      out of any array that has one and reports success. */
  lemma FailureChangesNothing<T>(c: Contents<T>, op: Op<T>)
    requires op.Representable()
    ensures Apply(c, op).1 != Ok ==> Apply(c, op).0 == c
    ensures op.Push? || op.Pop? || op.pos < TWO_TO_THE_63 ==>
              Apply(c, op).1 == if !InRange(c, op) then OutOfRange else if op.Adds() && c.capacity == 0 then Hangs else Ok
    ensures !op.Push? && !op.Pop? && op.pos >= TWO_TO_THE_63 ==>
              && Apply(c, op).1 != OutOfRange
              && Apply(c, op).1 ==
                   (if op.Remove? && op.pos % TWO_TO_THE_32 < TWO_TO_THE_31 then if c.items == [] then Corrupt else Ok
                    else if op.Insert? && c.capacity == 0 then Hangs
                    else OutOfBounds)
              && (Apply(c, op).1 == Ok ==> |Apply(c, op).0.items| == |c.items| - 1)
  {
  }

  /** The new elements are the old ones but for the one put in at `pos`; those behind have moved up. */
  predicate PutIn<T(==)>(items: seq<T>, pos: nat, e: T, items': seq<T>) {
    && |items'| == |items| + 1 && pos <= |items| && items'[pos] == e
    && (forall i :: 0 <= i < pos ==> items'[i] == items[i])
    && (forall i :: pos < i < |items'| ==> items'[i] == items[i - 1])
  }

  /** They are the old ones but for the one taken out at `pos`; those behind have moved down. */
  predicate TakenOut<T(==)>(items: seq<T>, pos: nat, items': seq<T>) {
    && |items| == |items'| + 1 && pos < |items|
    && (forall i :: 0 <= i < pos ==> items'[i] == items[i])
    && (forall i :: pos <= i < |items'| ==> items'[i] == items[i + 1])
  }

  /** What a successful operation does, element by element. */
  lemma SuccessElementByElement<T>(c: Contents<T>, op: Op<T>)
    requires op.Representable() && Apply(c, op).1 == Ok
    ensures var n, items' := |c.items|, Apply(c, op).0.items;
            match op
            case Push(e) => PutIn(c.items, n, e, items')
            case Insert(pos, e) => PutIn(c.items, pos, e, items')
            case Remove(pos) =>
              if pos < TWO_TO_THE_63 then TakenOut(c.items, pos, items')
              else
                var low := pos % TWO_TO_THE_32;
                low < TWO_TO_THE_31 && TakenOut(c.items, if low < n then low else n - 1, items')
            case Pop => TakenOut(c.items, n - 1, items')
            case Get(pos) => pos < n && items' == c.items
            case Set(pos, e) =>
              && |items'| == n && pos < n && items'[pos] == e
              && (forall i :: 0 <= i < n && i != pos ==> items'[i] == c.items[i])
  {
  }

  /** Removing undoes inserting at the same place, and popping undoes pushing. */
  lemma RemovalUndoesInsertion<T>(c: Contents<T>, pos: nat, e: T)
    requires c.capacity >= 1 && pos <= |c.items| && pos < TWO_TO_THE_63
    ensures Apply(Apply(c, Insert(pos, e)).0, Remove(pos)) == (WithRoom(c, |c.items| + 1), Ok)
    ensures Apply(Apply(c, Push(e)).0, Pop) == (WithRoom(c, |c.items| + 1), Ok)
    ensures pos == |c.items| ==> Apply(c, Insert(pos, e)) == Apply(c, Push(e))
  {
    var inserted := c.items[..pos] + [e] + c.items[pos..];
    assert inserted[..pos] + inserted[pos + 1..] == c.items;
    assert (c.items + [e])[..|c.items|] == c.items;
    assert c.items[..|c.items|] + [e] + c.items[|c.items|..] == c.items + [e];
  }
}
