/** The RefLang heap object: an array of 65,536 cells updated in place and a
    set of free indices, each operation proved to do what the corresponding
    function of HeapModel describes. */
module Heap {
  import opened HeapModel

  class Heap16Bit<V> {
    /** The cells; `Empty` plays the part of a null slot. */
    var rep: array<Cell<V>>
    /** The free indices (an ordered set in the implementation). */
    var freeSet: set<int>

    /** The heap as a value. */
    ghost function State(): Store<V>
      reads this, rep
    {
      Store(rep[..], freeSet)
    }

    /** Object invariant: full-size array, and a free in-range index is exactly an empty cell. */
    ghost predicate Valid()
      reads this, rep
    {
      rep.Length == HEAP_SIZE && Inv(State())
    }

    /** Every cell starts empty and the constructor adds every index to the free set. */
    constructor ()
      ensures Valid() && fresh(rep)
      ensures State() == Init()
    {
      rep := new Cell<V>[HEAP_SIZE](_ => Empty);
      freeSet := {};
      new;
      for i := 0 to HEAP_SIZE
        modifies this`freeSet
        invariant forall j :: j in freeSet <==> 0 <= j < i
      {
        freeSet := freeSet + {i};
      }
      assert forall k :: 0 <= k < HEAP_SIZE ==> rep[..][k] == Init<V>().cells[k];
      assert rep[..] == Init<V>().cells;
      assert freeSet == Init<V>().freeSet;
    }

    /** Allocate the least free index and store `v` there. */
    method Ref(v: V) returns (r: Reply<int>)
      requires Valid()
      modifies this`freeSet, rep
      ensures Valid()
      ensures Outcome(State(), r) == HeapModel.Ref(old(State()), v)
    {
      if freeSet == {} {
        return DynamicError(OutOfMemory);
      }
      var loc := Least(freeSet);
      if !(0 <= loc < rep.Length) {
        // the array store throws before anything is written
        return IndexFault(loc);
      }
      rep[loc] := Full(v);
      freeSet := freeSet - {loc};
      r := Ok(loc);
    }

    /** Read the value at `loc`. */
    method Deref(loc: int) returns (r: Reply<V>)
      requires Valid()
      ensures r == HeapModel.Deref(State(), loc)
      ensures r == DynamicError(NullPointer(loc)) <==> InRange(loc) && loc in freeSet
    {
      if !(0 <= loc < rep.Length) {
        return DynamicError(SegFault(loc));
      }
      if rep[loc] == Empty {
        return DynamicError(NullPointer(loc));
      }
      r := Ok(rep[loc].value);
    }

    /** Overwrite the value at an allocated `loc`. */
    method Setref(loc: int, v: V) returns (r: Reply<V>)
      requires Valid()
      modifies rep
      ensures Valid() && freeSet == old(freeSet)
      ensures Outcome(State(), r) == HeapModel.Setref(old(State()), loc, v)
    {
      if !(0 <= loc < rep.Length) {
        return DynamicError(SegFault(loc));
      }
      if rep[loc] == Empty {
        return DynamicError(NullPointer(loc));
      }
      rep[loc] := Full(v);
      r := Ok(v);
    }

    /** Return `loc` to the free pool and clear its cell. The index is added
        before the array access that can fail. */
    method Free(loc: int) returns (r: Reply<int>)
      requires Valid()
      modifies this`freeSet, rep
      ensures Valid()
      ensures Outcome(State(), r) == HeapModel.Free(old(State()), loc)
    {
      freeSet := freeSet + {loc};
      if !(0 <= loc < rep.Length) {
        return DynamicError(SegFault(loc));
      }
      rep[loc] := Empty;
      r := Ok(loc);
    }
  }

  /** A client that relies only on the specifications above: allocate, read
      back, overwrite, free, and observe the use after free. */
  method UseAfterFree<V>(v: V, w: V)
    returns (loc: Reply<int>, first: Reply<V>, updated: Reply<V>, dangling: Reply<V>)
    ensures loc == Ok(0) && first == Ok(v) && updated == Ok(w)
    ensures dangling == DynamicError(NullPointer(0))
  {
    var heap := new Heap16Bit<V>();
    loc := heap.Ref(v);
    first := heap.Deref(0);
    var _ := heap.Setref(0, w);
    updated := heap.Deref(0);
    var _ := heap.Free(0);
    dangling := heap.Deref(0);
  }
}
