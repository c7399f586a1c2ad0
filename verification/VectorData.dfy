/**
 The storage of VectorImpl.cpp on values: slots that hold an object or not, the
 element moves of TypeHelpers.h on them, and the growth of the capacity.
 */
module VectorData {

  /** A place for one element: no object lives there, or one with a value does. */
  datatype Slot<T> = Raw | Obj(value: T)

  const MIN_CAPACITY := 4

  function Max(a: nat, b: nat): nat {
    if a > b then a else b
  }

  // ---------------------------------------------------------------------------
  // The sequence operations that the vector stands for
  // ---------------------------------------------------------------------------

  function Repeat<T>(item: T, n: nat): (r: seq<T>)
    ensures |r| == n && forall i :: 0 <= i < n ==> r[i] == item
  {
    seq(n, _ => item)
  }

  function Inserted<T>(items: seq<T>, index: nat, item: T, n: nat): (r: seq<T>)
    requires index <= |items|
    ensures |r| == |items| + n
  {
    items[..index] + Repeat(item, n) + items[index..]
  }

  lemma InsertedAt<T>(items: seq<T>, index: nat, item: T, n: nat, i: nat)
    requires index <= |items| && i < |items| + n
    ensures Inserted(items, index, item, n)[i] ==
      if i < index then items[i] else if i < index + n then item else items[i - n]
  {
  }

  function Removed<T>(items: seq<T>, index: nat, n: nat): (r: seq<T>)
    requires index + n <= |items|
    ensures |r| == |items| - n
  {
    items[..index] + items[index + n..]
  }

  lemma RemovedAt<T>(items: seq<T>, index: nat, n: nat, i: nat)
    requires index + n <= |items| && i < |items| - n
    ensures Removed(items, index, n)[i] == if i < index then items[i] else items[i + n]
  {
  }

  // ---------------------------------------------------------------------------
  // The right-shifting move loop
  // ---------------------------------------------------------------------------

  datatype Option<A> = None | Some(value: A)

  /**
   move_forward_type without memmove: from the last element down, one is constructed at
   the destination and, unless destroying is trivial (`dtor`), destroyed at the source.
   None, if an object is constructed where one has to be destroyed, or a dead one is
   copied or destroyed.
   */
  function MoveLoop<T>(slots: seq<Slot<T>>, d: nat, s: nat, n: nat, dtor: bool): (r: Option<seq<Slot<T>>>)
    requires d + n <= |slots| && s + n <= |slots|
    decreases n
  {
    if n == 0 then Some(slots)
    else if slots[s + n - 1].Raw? || (!dtor && slots[d + n - 1].Obj?) then None
    else MoveLoop(OneMove(slots, d + n - 1, s + n - 1, dtor), d, s, n - 1, dtor)
  }

  function OneMove<T>(slots: seq<Slot<T>>, d: nat, s: nat, dtor: bool): (r: seq<Slot<T>>)
    requires d < |slots| && s < |slots|
    ensures |r| == |slots|
  {
    var copied := slots[d := slots[s]];
    if dtor then copied else copied[s := Raw]
  }

  /** There are objects to move, and room outside them. */
  predicate CanMove<T>(slots: seq<Slot<T>>, d: nat, s: nat, n: nat, dtor: bool)
    requires d + n <= |slots| && s + n <= |slots|
  {
    && (forall i :: s <= i < s + n ==> slots[i].Obj?)
    && (!dtor ==> forall i :: d <= i < d + n && !(s <= i < s + n) ==> slots[i].Raw?)
  }

  /** The objects of `[s..s + n]` moved to `[d..d + n]`, and nothing else changed. */
  predicate HaveMoved<T(==)>(slots: seq<Slot<T>>, d: nat, s: nat, n: nat, dtor: bool, after: seq<Slot<T>>)
    requires d + n <= |slots| && s + n <= |slots|
  {
    && |after| == |slots|
    && (forall i :: d <= i < d + n ==> after[i] == slots[s + (i - d)])
    && (!dtor ==> forall i :: s <= i < s + n && !(d <= i < d + n) ==> after[i] == Raw)
    && (forall i :: 0 <= i < |slots| && !(s <= i < s + n) && !(d <= i < d + n) ==> after[i] == slots[i])
  }

  /** Elements `p` apart are equal. */
  predicate Repeats<A(==)>(xs: seq<A>, from: nat, n: nat, p: nat)
    requires from + n <= |xs|
  {
    forall i :: from <= i < from + n - p ==> xs[i] == xs[i + p]
  }

  /**
   When the loop does what a move should: upwards, or without overlap, or with nothing to
   move; and for trivially destroyed elements also when they repeat at the distance moved.
   */
  predicate LoopWorks<T(==)>(slots: seq<Slot<T>>, d: nat, s: nat, n: nat, dtor: bool)
    requires d + n <= |slots| && s + n <= |slots|
  {
    d > s || d + n <= s || n == 0 || (dtor && Repeats(slots, s, n, s - d))
  }

  lemma {:induction false} MoveLoopMoves<T>(slots: seq<Slot<T>>, d: nat, s: nat, n: nat, dtor: bool)
    requires d + n <= |slots| && s + n <= |slots| && CanMove(slots, d, s, n, dtor)
    requires d > s || d + n <= s || n == 0
    ensures MoveLoop(slots, d, s, n, dtor).Some?
    ensures HaveMoved(slots, d, s, n, dtor, MoveLoop(slots, d, s, n, dtor).value)
    decreases n
  {
    if n > 0 {
      MoveLoopMoves(OneMove(slots, d + n - 1, s + n - 1, dtor), d, s, n - 1, dtor);
    }
  }

  /** Each slot of the destination equals the one `p` further on. */
  predicate SelfSimilar<T(==)>(r: seq<Slot<T>>, d: nat, n: nat, p: nat)
    requires d + n + p <= |r|
  {
    forall i :: d <= i < d + n ==> r[i] == r[i + p]
  }

  predicate SameOutside<T(==)>(slots: seq<Slot<T>>, r: seq<Slot<T>>, d: nat, n: nat) {
    |r| == |slots| && forall i :: 0 <= i < |slots| && !(d <= i < d + n) ==> r[i] == slots[i]
  }

  /** Downwards over an overlap, each destination ends equal to its source as the loop leaves it. */
  lemma {:induction false} MoveLoopOverlaps<T>(slots: seq<Slot<T>>, d: nat, s: nat, n: nat)
    requires d <= s && s + n <= |slots| && forall i :: s <= i < s + n ==> slots[i].Obj?
    ensures MoveLoop(slots, d, s, n, true).Some?
    ensures var r := MoveLoop(slots, d, s, n, true).value; SameOutside(slots, r, d, n) && SelfSimilar(r, d, n, s - d)
    decreases n
  {
    if n > 0 {
      var next := OneMove(slots, d + n - 1, s + n - 1, true);
      MoveLoopOverlaps(next, d, s, n - 1);
      var r := MoveLoop(next, d, s, n - 1, true).value;
      assert SameOutside(next, r, d, n - 1) && SelfSimilar(r, d, n - 1, s - d);
      assert r[d + n - 1] == next[d + n - 1] && r[s + n - 1] == next[s + n - 1];
    }
  }

  /** So they are what they should be exactly if the elements repeat at that distance. */
  lemma {:induction false} OverlapArrives<T>(slots: seq<Slot<T>>, r: seq<Slot<T>>, d: nat, s: nat, n: nat, i: nat)
    requires d < s && s + n <= |slots| && d <= i < d + n && Repeats(slots, s, n, s - d)
    requires SameOutside(slots, r, d, n) && SelfSimilar(r, d, n, s - d)
    ensures r[i] == slots[i + (s - d)]
    decreases d + n - i
  {
    var p := s - d;
    assert r[i] == r[i + p];
    if i + p < d + n {
      OverlapArrives(slots, r, d, s, n, i + p);
      assert slots[i + p] == slots[i + p + p];
    }
  }

  lemma RepeatsSuffices<T>(slots: seq<Slot<T>>, r: seq<Slot<T>>, d: nat, s: nat, n: nat)
    requires d < s && s + n <= |slots| && Repeats(slots, s, n, s - d)
    requires SameOutside(slots, r, d, n) && SelfSimilar(r, d, n, s - d)
    ensures HaveMoved(slots, d, s, n, true, r)
  {
    forall i | d <= i < d + n ensures r[i] == slots[s + (i - d)] {
      OverlapArrives(slots, r, d, s, n, i);
    }
  }

  lemma RepeatsIsNeeded<T>(slots: seq<Slot<T>>, r: seq<Slot<T>>, d: nat, s: nat, n: nat)
    requires d < s && s + n <= |slots| && HaveMoved(slots, d, s, n, true, r) && SelfSimilar(r, d, n, s - d)
    ensures Repeats(slots, s, n, s - d)
  {
    var p := s - d;
    forall i | s <= i < s + n - p ensures slots[i] == slots[i + p] {
      assert r[i - p] == slots[s + (i - p - d)] && r[i] == slots[s + (i - d)];
    }
  }

  lemma TrivialLoopWorks<T>(slots: seq<Slot<T>>, d: nat, s: nat, n: nat)
    requires d <= s && s + n <= |slots| && forall i :: s <= i < s + n ==> slots[i].Obj?
    ensures MoveLoop(slots, d, s, n, true).Some?
    ensures HaveMoved(slots, d, s, n, true, MoveLoop(slots, d, s, n, true).value) <==> Repeats(slots, s, n, s - d)
  {
    MoveLoopOverlaps(slots, d, s, n);
    var r := MoveLoop(slots, d, s, n, true).value;
    if d == s {
      SamePlace(slots, d, n);
    } else if Repeats(slots, s, n, s - d) {
      RepeatsSuffices(slots, r, d, s, n);
    } else if HaveMoved(slots, d, s, n, true, r) {
      RepeatsIsNeeded(slots, r, d, s, n);
    }
  }

  lemma {:induction false} SamePlace<T>(slots: seq<Slot<T>>, d: nat, n: nat)
    requires d + n <= |slots| && forall i :: d <= i < d + n ==> slots[i].Obj?
    ensures MoveLoop(slots, d, d, n, true) == Some(slots)
  {
    if n > 0 {
      assert OneMove(slots, d + n - 1, d + n - 1, true) == slots;
      SamePlace(slots, d, n - 1);
    }
  }

  /**
   The loop moves the objects exactly when LoopWorks. Otherwise its first step constructs
   an object over one that is never destroyed or, where destroying is trivial, elements
   end where others should be.
   */
  lemma MoveLoopWorks<T>(slots: seq<Slot<T>>, d: nat, s: nat, n: nat, dtor: bool)
    requires d + n <= |slots| && s + n <= |slots| && CanMove(slots, d, s, n, dtor)
    ensures dtor ==> MoveLoop(slots, d, s, n, dtor).Some?
    ensures var moved := MoveLoop(slots, d, s, n, dtor);
            moved.Some? && HaveMoved(slots, d, s, n, dtor, moved.value) <==> LoopWorks(slots, d, s, n, dtor)
    ensures !dtor && !LoopWorks(slots, d, s, n, dtor) ==> MoveLoop(slots, d, s, n, dtor) == None
  {
    if d > s || d + n <= s || n == 0 {
      MoveLoopMoves(slots, d, s, n, dtor);
    } else if dtor {
      TrivialLoopWorks(slots, d, s, n);
    } else {
      assert s <= d + n - 1 < s + n;
    }
  }

  /** memmove; where an element was moved from, its object no longer lives unless destroying is trivial. */
  function Memmoved<T>(slots: seq<Slot<T>>, d: nat, s: nat, n: nat, dtor: bool): (r: seq<Slot<T>>)
    requires d + n <= |slots| && s + n <= |slots|
    ensures |r| == |slots|
  {
    seq(|slots|, i requires 0 <= i < |slots| =>
      if d <= i < d + n then slots[s + (i - d)] else if !dtor && s <= i < s + n then Raw else slots[i])
  }

  lemma MemmovedAt<T>(slots: seq<Slot<T>>, d: nat, s: nat, n: nat, dtor: bool, after: seq<Slot<T>>)
    requires d + n <= |slots| && s + n <= |slots| && |after| == |slots|
    requires forall i :: d <= i < d + n ==> after[i] == slots[s + (i - d)]
    requires forall i :: 0 <= i < |slots| && !(d <= i < d + n) ==>
      after[i] == if !dtor && s <= i < s + n then Raw else slots[i]
    ensures after == Memmoved(slots, d, s, n, dtor)
  {
  }

  /** _do_move_forward, by memmove or by the loop. */
  function Forwarded<T>(slots: seq<Slot<T>>, d: nat, s: nat, n: nat, memmove: bool, dtor: bool): Option<seq<Slot<T>>>
    requires d + n <= |slots| && s + n <= |slots|
  {
    if memmove then Some(Memmoved(slots, d, s, n, dtor)) else MoveLoop(slots, d, s, n, dtor)
  }

  /** When _do_move_forward does what it should. */
  predicate MovesWell<T(==)>(slots: seq<Slot<T>>, d: nat, s: nat, n: nat, memmove: bool, dtor: bool)
    requires d + n <= |slots| && s + n <= |slots|
  {
    memmove || LoopWorks(slots, d, s, n, dtor)
  }

  /** The elements are moved, with only living objects copied and destroyed, exactly when MovesWell. */
  lemma ForwardedWorks<T>(slots: seq<Slot<T>>, d: nat, s: nat, n: nat, memmove: bool, dtor: bool)
    requires d + n <= |slots| && s + n <= |slots| && CanMove(slots, d, s, n, dtor)
    ensures var r := Forwarded(slots, d, s, n, memmove, dtor);
      && (r.Some? && HaveMoved(slots, d, s, n, dtor, r.value) <==> MovesWell(slots, d, s, n, memmove, dtor))
      && (if dtor then r.Some? else r.Some? <==> MovesWell(slots, d, s, n, memmove, dtor))
  {
    if !memmove {
      MoveLoopWorks(slots, d, s, n, dtor);
    }
  }

  /** Downwards and with trivial destruction nothing outside the destination changes. */
  lemma ForwardedOutside<T>(slots: seq<Slot<T>>, d: nat, s: nat, n: nat, memmove: bool)
    requires d <= s && s + n <= |slots| && CanMove(slots, d, s, n, true)
    ensures var r := Forwarded(slots, d, s, n, memmove, true); r.Some? && SameOutside(slots, r.value, d, n)
  {
    if !memmove {
      MoveLoopOverlaps(slots, d, s, n);
    }
  }

  // ---------------------------------------------------------------------------
  // Growth
  // ---------------------------------------------------------------------------

  /** The capacity that _grow asks for. */
  function GrownCapacity(newSize: nat): (c: nat)
    ensures c >= newSize
  {
    Max(MIN_CAPACITY, newSize + newSize / 2)
  }

  /** The capacity that _shrink leaves for `newSize` elements. */
  function ShrunkCapacity(capacity: nat, newSize: nat): nat {
    if newSize < capacity / 2 then Max(MIN_CAPACITY, newSize * 2) else capacity
  }

  /**
   New storage for what is left after a removal is twice as large: one more push fits, but
   removing one more element allocates again.
   */
  lemma ShrinksAgain(capacity: nat, size: nat)
    requires 3 <= size < capacity / 2
    ensures ShrunkCapacity(capacity, size) == 2 * size
    ensures PushCapacity(2 * size, size) == 2 * size && ShrunkCapacity(2 * size, size - 1) == Max(4, 2 * size - 2)
  {
  }

  /** Not much more than twice the size is kept. */
  predicate Tight(capacity: nat, size: nat) {
    size <= capacity <= Max(MIN_CAPACITY, 2 * size + 1)
  }

  /** The capacity, and the elements that reallocations moved so far, after one more push onto `size` elements. */
  function PushCapacity(capacity: nat, size: nat): nat {
    if capacity < size + 1 then GrownCapacity(size + 1) else capacity
  }

  function PushMoves(capacity: nat, size: nat, moved: nat): nat {
    if capacity < size + 1 then moved + size else moved
  }

  function CapacityAfter(n: nat): (c: nat)
    ensures c >= n
  {
    if n == 0 then 0 else PushCapacity(CapacityAfter(n - 1), n - 1)
  }

  function MovesAfter(n: nat): nat {
    if n == 0 then 0 else PushMoves(CapacityAfter(n - 1), n - 1, MovesAfter(n - 1))
  }

  /** Pushes cost a constant number of moves each, whatever their number. */
  lemma {:induction false} PushesMoveAtMostThree(n: nat)
    ensures MovesAfter(n) <= 2 * CapacityAfter(n) && MovesAfter(n) <= 3 * n
  {
    if n > 0 {
      PushesMoveAtMostThree(n - 1);
    }
  }
}
