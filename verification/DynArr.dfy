/** The growable array, and the cost of growing it by doubling. */
module DynArr {
  import opened Bytes

  datatype Op<T> = Push(value: T) | Pop

  /** The operations on plain sequences; popping an empty array has no effect. */
  function Step<T>(s: seq<T>, op: Op<T>): seq<T>
  {
    match op
    case Push(value) => s + [value]
    case Pop => if s == [] then s else s[..|s| - 1]
  }

  function Run<T>(s: seq<T>, ops: seq<Op<T>>): seq<T>
  {
    if ops == [] then s else Step(Run(s, ops[..|ops| - 1]), ops[|ops| - 1])
  }

  function Pushes<T>(ops: seq<Op<T>>): nat
  {
    if ops == [] then 0 else Pushes(ops[..|ops| - 1]) + if ops[|ops| - 1].Push? then 1 else 0
  }

  /** It counts the places that hold a push. */
  lemma {:induction false} PushesCounts<T>(ops: seq<Op<T>>)
    ensures Pushes(ops) == |set i | 0 <= i < |ops| && ops[i].Push?|
  {
    if ops != [] {
      var last := |ops| - 1;
      PushesCounts(ops[..last]);
      var before, all := set i | 0 <= i < last && ops[..last][i].Push?, set i | 0 <= i < |ops| && ops[i].Push?;
      assert all == before + if ops[last].Push? then {last} else {};
    }
  }

  class DynArr<T(0)> {
    var data: array<T>
    var size: nat
    var capacity: nat
    /** How many elements `Grow` has moved so far. */
    ghost var moves: nat

    constructor ()
      ensures Valid() && Contents() == [] && capacity == moves == 0 && fresh(data)
    {
      data := new T[0];
      size, capacity, moves := 0, 0, 0;
    }

    ghost predicate Valid()
      reads this
    {
      size <= capacity == data.Length
    }

    ghost function Contents(): seq<T>
      requires Valid()
      reads this, data
    {
      data[..size]
    }

    /** `grow`: moving every element into a new buffer. */
    method Grow(newCapacity: nat)
      requires Valid() && size <= newCapacity
      modifies this
      ensures Valid() && Contents() == old(Contents()) && fresh(data)
      ensures capacity == newCapacity && moves == old(moves) + |Contents()|
    {
      var grown := new T[newCapacity];
      var i := 0;
      while i < size
        invariant 0 <= i <= size && grown[..i] == data[..i]
        modifies grown
      {
        grown[i] := data[i];
        i := i + 1;
      }
      data, capacity, moves := grown, newCapacity, moves + size;
    }

    /** `push_back`. */
    method PushBack(value: T)
      requires Valid()
      modifies this, data
      ensures Valid() && Contents() == old(Contents()) + [value]
      ensures data == old(data) || fresh(data)
      ensures if old(|Contents()| < capacity) then capacity == old(capacity) && moves == old(moves)
              else capacity == Max(1, 2 * old(capacity)) && moves == old(moves) + old(capacity)
    {
      if size >= capacity {
        Grow(if capacity == 0 then 1 else capacity * 2);
      }
      data[size] := value;
      size := size + 1;
    }

    /** `pop_back`. */
    method PopBack()
      requires Valid()
      modifies this`size
      ensures Valid() && Contents() == Step(old(Contents()), Pop)
    {
      if size > 0 {
        size := size - 1;
      }
    }

    /** `resize`: cutting off, or filling up with `zero`. */
    method Resize(n: nat, zero: T)
      requires Valid()
      modifies this, data
      ensures Valid() && |Contents()| == n && capacity == Max(old(capacity), n)
      ensures moves == old(moves) + if n > old(capacity) then old(|Contents()|) else 0
      ensures forall i :: 0 <= i < n ==> Contents()[i] == if i < old(|Contents()|) then old(Contents())[i] else zero
    {
      ghost var before := Contents();
      if n > capacity {
        Grow(n);
      }
      var i := size;
      while i < n
        invariant size <= i <= Max(size, n)
        invariant data[..size] == before && forall k :: size <= k < i ==> data[k] == zero
        modifies data
      {
        data[i] := zero;
        i := i + 1;
      }
      size := n;
    }

    /** The cost invariant of an array that only grew by doubling, after `pushes` pushes. */
    ghost predicate Doubled(pushes: nat)
      reads this
    {
      size <= pushes && if capacity == 0 then moves == 0 else moves < capacity < 2 * pushes
    }

    /**
    Any sequence of pushes and pops on an empty array: the contents are those of a plain sequence, and
    fewer than two elements are moved per push.
    */
    method Program(ops: seq<Op<T>>)
      requires Valid() && Contents() == [] && capacity == moves == 0
      modifies this, data
      ensures Valid() && Contents() == Run([], ops)
      ensures moves == 0 || moves < 2 * Pushes(ops)
    {
      var i := 0;
      while i < |ops|
        invariant 0 <= i <= |ops| && Valid() && Contents() == Run([], ops[..i]) && Doubled(Pushes(ops[..i]))
        invariant data == old(data) || fresh(data)
      {
        assert ops[..i + 1][..i] == ops[..i];
        match ops[i] {
          case Push(value) => PushBack(value);
          case Pop => PopBack();
        }
        i := i + 1;
      }
      assert ops[..i] == ops;
    }
  }
}
