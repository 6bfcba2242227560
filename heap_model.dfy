/** The RefLang heap as a value: a fixed row of 65,536 cells and the set of free
    indices, with one function per heap operation and the properties the
    interpreter relies on (least-index allocation, ref/deref round trip,
    use-after-free detection, idempotent free, out-of-memory at capacity). */
module HeapModel {

  /** Number of cells of a Heap16Bit heap. */
  const HEAP_SIZE: int := 65_536

  /** A heap cell: empty (Java null) or holding a value. */
  datatype Cell<V> = Empty | Full(value: V)

  /** The DynamicError values a heap operation can return. */
  datatype HeapError = OutOfMemory | NullPointer(loc: int) | SegFault(loc: int)

  /** What a heap operation returns: a value, a DynamicError value, or an
      ArrayIndexOutOfBoundsException that the operation does not catch. */
  datatype Reply<T> = Ok(value: T) | DynamicError(error: HeapError) | IndexFault(index: int)

  /** The whole heap: `cells` is the `_rep` array, `freeSet` the TreeSet of free indices. */
  datatype Store<V> = Store(cells: seq<Cell<V>>, freeSet: set<int>)

  /** The heap after an operation, with the operation's reply. */
  datatype Outcome<V, T> = Outcome(heap: Store<V>, reply: Reply<T>)

  predicate InRange(loc: int) {
    0 <= loc < HEAP_SIZE
  }

  /** Free-set membership agrees with empty cells, on every in-range index. */
  ghost predicate Inv<V>(h: Store<V>) {
    |h.cells| == HEAP_SIZE &&
    forall i :: 0 <= i < HEAP_SIZE ==> (i in h.freeSet <==> h.cells[i] == Empty)
  }

  /** The free set holds only indices that exist. */
  ghost predicate Bounded<V>(h: Store<V>) {
    forall i :: i in h.freeSet ==> InRange(i)
  }

  ghost predicate IsLeast(m: int, s: set<int>) {
    m in s && forall x :: x in s ==> m <= x
  }

  lemma {:induction false} LeastExists(s: set<int>)
    requires s != {}
    ensures exists m :: IsLeast(m, s)
    decreases s
  {
    // a non-empty set has an element
    if forall x :: x !in s { assert false; }
    var y :| y in s;
    var rest := s - {y};
    if rest == {} {
      assert s == {y};
      assert IsLeast(y, s);
    } else {
      LeastExists(rest);
      var m :| IsLeast(m, rest);
      var least := if y < m then y else m;
      forall x | x in s
        ensures least <= x
      {
        if x != y { assert x in rest; }
      }
      assert IsLeast(least, s);
    }
  }

  /** The smallest element of a non-empty set (TreeSet.first()). */
  function Least(s: set<int>): (m: int)
    requires s != {}
    ensures m in s && forall x :: x in s ==> m <= x
  {
    LeastExists(s);
    var m :| m in s && forall x :: x in s ==> m <= x;
    m
  }

  /** A freshly constructed heap: every cell empty, every index free. */
  function Init<V>(): (h: Store<V>)
    ensures |h.cells| == HEAP_SIZE
  {
    // the explicit bounds make the set finite; `InRange(i)` gives its membership a trigger
    Store(seq(HEAP_SIZE, _ => Empty), set i | 0 <= i < HEAP_SIZE && InRange(i))
  }

  /** `ref(value)`: allocate the least free index. */
  function Ref<V>(h: Store<V>, v: V): (o: Outcome<V, int>)
    requires |h.cells| == HEAP_SIZE
    ensures |o.heap.cells| == HEAP_SIZE
  {
    if h.freeSet == {} then Outcome(h, DynamicError(OutOfMemory))
    else
      var loc := Least(h.freeSet);
      if !InRange(loc) then Outcome(h, IndexFault(loc))
      else Outcome(Store(h.cells[loc := Full(v)], h.freeSet - {loc}), Ok(loc))
  }

  /** `deref(loc)`: read an allocated cell; the heap is unchanged. */
  function Deref<V>(h: Store<V>, loc: int): (r: Reply<V>)
    requires |h.cells| == HEAP_SIZE
  {
    if !InRange(loc) then DynamicError(SegFault(loc))
    else if h.cells[loc] == Empty then DynamicError(NullPointer(loc))
    else Ok(h.cells[loc].value)
  }

  /** `setref(loc, value)`: overwrite an allocated cell. */
  function Setref<V>(h: Store<V>, loc: int, v: V): (o: Outcome<V, V>)
    requires |h.cells| == HEAP_SIZE
    ensures |o.heap.cells| == HEAP_SIZE
  {
    if !InRange(loc) then Outcome(h, DynamicError(SegFault(loc)))
    else if h.cells[loc] == Empty then Outcome(h, DynamicError(NullPointer(loc)))
    else Outcome(Store(h.cells[loc := Full(v)], h.freeSet), Ok(v))
  }

  /** `free(loc)`: the index joins the free set BEFORE the cell is cleared, so
      an out-of-range index is added even though the call reports a
      segmentation fault. */
  function Free<V>(h: Store<V>, loc: int): (o: Outcome<V, int>)
    requires |h.cells| == HEAP_SIZE
    ensures |o.heap.cells| == HEAP_SIZE
  {
    var added := h.freeSet + {loc};
    if !InRange(loc) then Outcome(Store(h.cells, added), DynamicError(SegFault(loc)))
    else Outcome(Store(h.cells[loc := Empty], added), Ok(loc))
  }

  // ---------------------------------------------------------------------------
  // A fresh heap

  lemma InitIsEmpty<V>()
    ensures Inv(Init<V>()) && Bounded(Init<V>())
    ensures forall i :: InRange(i) ==> i in Init<V>().freeSet && Init<V>().cells[i] == Empty
    ensures forall i :: i in Init<V>().freeSet <==> InRange(i)
  {
  }

  // ---------------------------------------------------------------------------
  // ref

  /** When the least free index lies in the array (always so on a bounded
      heap), `ref` returns it, stores the value there, removes exactly that
      index from the free set and leaves every other cell alone. */
  lemma RefAllocatesLeast<V>(h: Store<V>, v: V)
    requires Inv(h) && h.freeSet != {} && InRange(Least(h.freeSet))
    ensures var o := Ref(h, v);
      o.reply.Ok? &&
      InRange(o.reply.value) &&
      IsLeast(o.reply.value, h.freeSet) &&
      h.cells[o.reply.value] == Empty &&
      o.heap.cells[o.reply.value] == Full(v) &&
      o.heap.freeSet == h.freeSet - {o.reply.value} &&
      forall i :: 0 <= i < HEAP_SIZE && i != o.reply.value ==> o.heap.cells[i] == h.cells[i]
  {
  }

  /** With no free index `ref` reports out of memory and changes nothing. */
  lemma RefWhenFull<V>(h: Store<V>, v: V)
    requires |h.cells| == HEAP_SIZE && h.freeSet == {}
    ensures Ref(h, v) == Outcome(h, DynamicError(OutOfMemory))
  {
  }

  /** `ref` fails with an uncaught index fault exactly when the least free
      index is out of range, which needs an out-of-range index in the free set. */
  lemma RefFaultsOnlyUnbounded<V>(h: Store<V>, v: V)
    requires |h.cells| == HEAP_SIZE
    ensures Ref(h, v).reply.IndexFault? <==> h.freeSet != {} && !InRange(Least(h.freeSet))
    ensures Ref(h, v).reply.IndexFault? ==> !Bounded(h) && Ref(h, v).heap == h
  {
  }

  lemma RefPreservesInv<V>(h: Store<V>, v: V)
    requires Inv(h)
    ensures Inv(Ref(h, v).heap)
    ensures Bounded(h) ==> Bounded(Ref(h, v).heap)
  {
  }

  /** Round trip: right after a successful `ref(v)`, `deref` of the new
      location returns `v`. */
  lemma RefThenDeref<V>(h: Store<V>, v: V)
    requires |h.cells| == HEAP_SIZE
    ensures var o := Ref(h, v);
      o.reply.Ok? ==> Deref(o.heap, o.reply.value) == Ok(v)
  {
  }

  // ---------------------------------------------------------------------------
  // deref

  /** `deref` reports a null pointer exactly for free in-range indices, a
      segmentation fault exactly for out-of-range ones, and otherwise returns
      the stored value; it never faults. */
  lemma DerefCases<V>(h: Store<V>, loc: int)
    requires Inv(h)
    ensures Deref(h, loc) == DynamicError(SegFault(loc)) <==> !InRange(loc)
    ensures Deref(h, loc) == DynamicError(NullPointer(loc)) <==> InRange(loc) && loc in h.freeSet
    ensures Deref(h, loc).Ok? <==> InRange(loc) && loc !in h.freeSet
    ensures Deref(h, loc).Ok? ==> h.cells[loc] == Full(Deref(h, loc).value)
    ensures !Deref(h, loc).IndexFault?
  {
  }

  // ---------------------------------------------------------------------------
  // setref

  /** `setref` overwrites only an allocated in-range cell and returns the new
      value; on a free or out-of-range index it writes nothing. */
  lemma SetrefCases<V>(h: Store<V>, loc: int, v: V)
    requires Inv(h)
    ensures var o := Setref(h, loc, v);
      o.heap.freeSet == h.freeSet &&
      (!InRange(loc) ==> o == Outcome(h, DynamicError(SegFault(loc)))) &&
      (InRange(loc) && loc in h.freeSet ==> o == Outcome(h, DynamicError(NullPointer(loc)))) &&
      (InRange(loc) && loc !in h.freeSet ==>
        o.reply == Ok(v) && Deref(o.heap, loc) == Ok(v) &&
        forall i :: 0 <= i < HEAP_SIZE && i != loc ==> o.heap.cells[i] == h.cells[i])
  {
  }

  lemma SetrefPreservesInv<V>(h: Store<V>, loc: int, v: V)
    requires Inv(h)
    ensures Inv(Setref(h, loc, v).heap)
    ensures Bounded(h) ==> Bounded(Setref(h, loc, v).heap)
  {
  }

  // ---------------------------------------------------------------------------
  // free

  /** An in-range `free` returns the location, frees the index and empties
      the cell; nothing else changes. */
  lemma FreeInRange<V>(h: Store<V>, loc: int)
    requires |h.cells| == HEAP_SIZE && InRange(loc)
    ensures var o := Free(h, loc);
      o.reply == Ok(loc) && o.heap.freeSet == h.freeSet + {loc} &&
      o.heap.cells[loc] == Empty &&
      forall i :: 0 <= i < HEAP_SIZE && i != loc ==> o.heap.cells[i] == h.cells[i]
  {
  }

  /** An out-of-range `free(l)` reports a segmentation fault, yet `l` has
      already joined the free set; no cell changes. */
  lemma FreeOutOfRange<V>(h: Store<V>, loc: int)
    requires |h.cells| == HEAP_SIZE && !InRange(loc)
    ensures Free(h, loc) == Outcome(Store(h.cells, h.freeSet + {loc}), DynamicError(SegFault(loc)))
  {
  }

  /** Freeing twice leaves the same heap as freeing once. */
  lemma FreeIdempotent<V>(h: Store<V>, loc: int)
    requires |h.cells| == HEAP_SIZE
    ensures Free(Free(h, loc).heap, loc).heap == Free(h, loc).heap
    ensures Free(Free(h, loc).heap, loc).reply == Free(h, loc).reply
  {
  }

  /** Use after free is detected: `deref` of a freed location reports a null pointer. */
  lemma FreeThenDeref<V>(h: Store<V>, loc: int)
    requires |h.cells| == HEAP_SIZE && InRange(loc)
    ensures Deref(Free(h, loc).heap, loc) == DynamicError(NullPointer(loc))
  {
  }

  /** `free` keeps the invariant always, and keeps the free set bounded
      exactly when the location is in range. */
  lemma FreePreservesInv<V>(h: Store<V>, loc: int)
    requires Inv(h)
    ensures Inv(Free(h, loc).heap)
    ensures Bounded(h) ==> (Bounded(Free(h, loc).heap) <==> InRange(loc))
  {
  }

  /** An out-of-range `free` on a fresh heap poisons the next `ref`: the bad
      index is the least free one and the array store faults. */
  lemma FreeOutOfRangeThenRef<V>(v: V)
    ensures Free(Init<V>(), -1).reply == DynamicError(SegFault(-1))
    ensures Ref(Free(Init<V>(), -1).heap, v).reply == IndexFault(-1)
  {
  }

  // ---------------------------------------------------------------------------
  // Histories

  /** One heap operation, as the evaluator issues them. */
  datatype Op<V> = RefOp(value: V) | DerefOp(loc: int) | SetrefOp(loc: int, value: V) | FreeOp(loc: int)

  function Apply<V>(h: Store<V>, op: Op<V>): (h': Store<V>)
    requires |h.cells| == HEAP_SIZE
    ensures |h'.cells| == HEAP_SIZE
  {
    match op
    case RefOp(v) => Ref(h, v).heap
    case DerefOp(_) => h
    case SetrefOp(loc, v) => Setref(h, loc, v).heap
    case FreeOp(loc) => Free(h, loc).heap
  }

  function Run<V>(h: Store<V>, ops: seq<Op<V>>): (h': Store<V>)
    requires |h.cells| == HEAP_SIZE
    ensures |h'.cells| == HEAP_SIZE
    decreases |ops|
  {
    if ops == [] then h else Run(Apply(h, ops[0]), ops[1..])
  }

  predicate FreesInRange<V>(ops: seq<Op<V>>) {
    forall k :: 0 <= k < |ops| && ops[k].FreeOp? ==> InRange(ops[k].loc)
  }

  /** Every history keeps the invariant; a history whose frees are all in
      range also keeps the free set bounded, so no later `ref` can fault. */
  lemma {:induction false} RunPreservesInv<V>(h: Store<V>, ops: seq<Op<V>>)
    requires Inv(h)
    ensures Inv(Run(h, ops))
    ensures Bounded(h) && FreesInRange(ops) ==> Bounded(Run(h, ops))
    decreases |ops|
  {
    if ops != [] {
      var h1 := Apply(h, ops[0]);
      match ops[0] {
        case RefOp(v) => RefPreservesInv(h, v);
        case DerefOp(_) =>
        case SetrefOp(loc, v) => SetrefPreservesInv(h, loc, v);
        case FreeOp(loc) => FreePreservesInv(h, loc);
      }
      assert Bounded(h) && FreesInRange(ops) ==> Bounded(h1);
      assert FreesInRange(ops) ==> FreesInRange(ops[1..]) by {
        forall k | 0 <= k < |ops[1..]| && ops[1..][k].FreeOp?
          ensures FreesInRange(ops) ==> InRange(ops[1..][k].loc)
        {
          assert ops[1..][k] == ops[k + 1];
        }
      }
      RunPreservesInv(h1, ops[1..]);
    }
  }

  /** Starting from a fresh heap, a history with in-range frees never makes
      `ref` fault. */
  lemma ReachableRefNeverFaults<V>(ops: seq<Op<V>>, v: V)
    requires FreesInRange(ops)
    ensures !Ref(Run(Init<V>(), ops), v).reply.IndexFault?
  {
    InitIsEmpty<V>();
    RunPreservesInv(Init<V>(), ops);
  }

  // ---------------------------------------------------------------------------
  // Exhausting the heap

  /** The heap after several operations, with their replies in order. */
  datatype Trace<V> = Trace(heap: Store<V>, replies: seq<Reply<int>>)

  /** `ref` each value in turn, collecting the replies. */
  function RefAll<V>(h: Store<V>, vs: seq<V>): (t: Trace<V>)
    requires |h.cells| == HEAP_SIZE
    ensures |t.heap.cells| == HEAP_SIZE && |t.replies| == |vs|
    decreases |vs|
  {
    if vs == [] then Trace(h, [])
    else
      var first := Ref(h, vs[0]);
      var rest := RefAll(first.heap, vs[1..]);
      Trace(rest.heap, [first.reply] + rest.replies)
  }

  /** The free indices of a heap whose first `k` indices are taken. */
  function FromIndex(k: int): (s: set<int>)
    requires 0 <= k
    ensures forall i :: i in s <==> k <= i < HEAP_SIZE
  {
    set i | 0 <= i < HEAP_SIZE && InRange(i) && k <= i
  }

  /** When exactly the indices from `k` on are free, `n` successive refs get
      `k`, `k+1`, ... in order and leave the indices from `k+n` on free. */
  lemma {:induction false} RefAllFrom<V>(h: Store<V>, k: int, vs: seq<V>)
    requires |h.cells| == HEAP_SIZE && 0 <= k && k + |vs| <= HEAP_SIZE
    requires h.freeSet == FromIndex(k)
    ensures var o := RefAll(h, vs);
      o.heap.freeSet == FromIndex(k + |vs|) &&
      (forall j :: 0 <= j < |vs| ==> o.replies[j] == Ok(k + j)) &&
      (forall j :: 0 <= j < |vs| ==> o.heap.cells[k + j] == Full(vs[j])) &&
      (forall i :: 0 <= i < k ==> o.heap.cells[i] == h.cells[i])
    decreases |vs|
  {
    if vs != [] {
      assert k in h.freeSet;
      assert Least(h.freeSet) == k;
      var first := Ref(h, vs[0]);
      assert first.reply == Ok(k);
      assert first.heap.freeSet == FromIndex(k + 1);
      RefAllFrom(first.heap, k + 1, vs[1..]);
      var rest := RefAll(first.heap, vs[1..]);
      forall j | 0 <= j < |vs|
        ensures RefAll(h, vs).replies[j] == Ok(k + j)
        ensures RefAll(h, vs).heap.cells[k + j] == Full(vs[j])
      {
        if j > 0 {
          assert vs[1..][j - 1] == vs[j];
        }
      }
    }
  }

  /** From a fresh heap, 65,536 refs succeed at locations 0, 1, ..., 65,535
      and the 65,537th reports out of memory. */
  lemma ExhaustFreshHeap<V>(vs: seq<V>, v: V)
    requires |vs| == HEAP_SIZE
    ensures var o := RefAll(Init<V>(), vs);
      (forall j :: 0 <= j < HEAP_SIZE ==> o.replies[j] == Ok(j)) &&
      Ref(o.heap, v) == Outcome(o.heap, DynamicError(OutOfMemory))
  {
    assert Init<V>().freeSet == FromIndex(0);
    RefAllFrom(Init<V>(), 0, vs);
    assert RefAll(Init<V>(), vs).heap.freeSet == {};
  }
}
