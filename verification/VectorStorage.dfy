/**
 VectorImpl.cpp with the storage of SharedBuffer.cpp: a vector whose storage has
 one owner, and whose elements may be trivially copied, moved or destroyed, or
 not. Allocations succeed. An object is constructed only in a slot without one,
 and only an object that lives is copied or destroyed, as long as `sound`.
 */
module VectorStorage {
  import opened VectorData

  const BAD_INDEX := -75
  const BAD_VALUE := -22
  const NO_MEMORY := -12

  /** The flags of an element type. */
  datatype Traits = Traits(ctor: bool, dtor: bool, copy: bool, move: bool)

  class Vector<T> {
    const traits: Traits
    var storage: array?<Slot<T>>
    var count: nat
    /** The elements that reallocations have copied so far. */
    ghost var moved: nat
    /** No object was yet constructed over a living one, and no dead one copied or destroyed. */
    ghost var sound: bool

    /** Slots below the count hold objects; unless destroying is trivial, no others do. */
    ghost predicate Live(slots: seq<Slot<T>>, n: nat) {
      && n <= |slots|
      && (forall i :: 0 <= i < n ==> slots[i].Obj?)
      && (!traits.dtor ==> forall i :: n <= i < |slots| ==> slots[i].Raw?)
    }

    ghost predicate Valid()
      reads this, storage
    {
      sound && if storage == null then count == 0 else Live(storage[..], count)
    }

    ghost function Items(): (items: seq<T>)
      requires Valid()
      reads this, storage
      ensures |items| == count
    {
      if storage == null then [] else Values(storage[..], count)
    }

    ghost function Values(slots: seq<Slot<T>>, n: nat): (items: seq<T>)
      requires n <= |slots| && forall i :: 0 <= i < n ==> slots[i].Obj?
      ensures |items| == n && forall i :: 0 <= i < n ==> items[i] == slots[i].value
    {
      seq(n, i requires 0 <= i < n => slots[i].value)
    }

    function Capacity(): nat
      reads this
    {
      if storage == null then 0 else storage.Length
    }

    /** What setCapacity is needed for to break. */
    ghost predicate IsTight()
      reads this
    {
      storage != null ==> Tight(Capacity(), count)
    }

    /** use_trivial_move: elements are moved by memmove, not by the loop. */
    predicate UsesMemmove() {
      (traits.dtor && traits.ctor) || traits.move
    }

    constructor (traits: Traits)
      ensures Valid() && Items() == [] && storage == null && IsTight() && this.traits == traits && moved == 0
    {
      this.traits, storage, count, moved, sound := traits, null, 0, 0, true;
    }

    // -------------------------------------------------------------------------
    // Elements
    // -------------------------------------------------------------------------

    /** Placement new: on raw storage, unless destroying is trivial. */
    method Construct(a: array<Slot<T>>, i: nat, item: T)
      requires i < a.Length && (traits.dtor || a[i].Raw?)
      modifies a
      ensures a[..] == old(a[..])[i := Obj(item)]
    {
      a[i] := Obj(item);
    }

    /** A destructor call; one that is trivial is not made. */
    method Destroy(a: array<Slot<T>>, i: nat)
      requires i < a.Length && !traits.dtor && a[i].Obj?
      modifies a
      ensures a[..] == old(a[..])[i := Raw]
    {
      a[i] := Raw;
    }

    /** _do_destroy. */
    method DoDestroy(a: array<Slot<T>>, at: nat, n: nat)
      requires at + n <= a.Length && forall i :: at <= i < at + n ==> a[i].Obj?
      modifies a
      ensures forall i :: 0 <= i < a.Length ==>
        a[i] == if !traits.dtor && at <= i < at + n then Raw else old(a[i])
    {
      if !traits.dtor {
        var k := 0;
        while k < n
          invariant 0 <= k <= n
          invariant forall i :: 0 <= i < a.Length ==> a[i] == if at <= i < at + k then Raw else old(a[i])
        {
          Destroy(a, at + k);
          k := k + 1;
        }
      }
    }

    /** _do_copy, into another storage. */
    method DoCopy(dst: array<Slot<T>>, d: nat, src: array<Slot<T>>, s: nat, n: nat)
      requires dst != src && d + n <= dst.Length && s + n <= src.Length
      requires forall i :: s <= i < s + n ==> src[i].Obj?
      requires forall i :: d <= i < d + n ==> dst[i].Raw?
      modifies dst
      ensures forall i :: d <= i < d + n ==> dst[i] == src[s + (i - d)]
      ensures forall i :: 0 <= i < dst.Length && !(d <= i < d + n) ==> dst[i] == old(dst[i])
    {
      var k := 0;
      while k < n
        invariant 0 <= k <= n
        invariant forall i :: d <= i < d + k ==> dst[i] == src[s + (i - d)]
        invariant forall i :: 0 <= i < dst.Length && !(d <= i < d + k) ==> dst[i] == old(dst[i])
      {
        Construct(dst, d + k, src[s + k].value);
        k := k + 1;
      }
    }

    /** _do_splat. */
    method DoSplat(a: array<Slot<T>>, at: nat, item: T, n: nat)
      requires at + n <= a.Length && (traits.dtor || forall i :: at <= i < at + n ==> a[i].Raw?)
      modifies a
      ensures forall i :: 0 <= i < a.Length ==> a[i] == if at <= i < at + n then Obj(item) else old(a[i])
    {
      var k := 0;
      while k < n
        invariant 0 <= k <= n
        invariant forall i :: 0 <= i < a.Length ==> a[i] == if at <= i < at + k then Obj(item) else old(a[i])
      {
        Construct(a, at + k, item);
        k := k + 1;
      }
    }

    /** memmove; where an element was moved from, its object no longer lives. */
    method Memmove(a: array<Slot<T>>, d: nat, s: nat, n: nat)
      requires d + n <= a.Length && s + n <= a.Length
      modifies a
      ensures a[..] == Memmoved(old(a[..]), d, s, n, traits.dtor)
    {
      ghost var was := a[..];
      forall i | 0 <= i < a.Length {
        a[i] := if d <= i < d + n then a[s + (i - d)] else if !traits.dtor && s <= i < s + n then Raw else a[i];
      }
      MemmovedAt(was, d, s, n, traits.dtor, a[..]);
    }

    /** One round of the loop: copy construction, or assignment where copying is trivial, and destruction. */
    method MoveOne(a: array<Slot<T>>, d: nat, s: nat)
      requires d < a.Length && s < a.Length
      modifies a, this`sound
      ensures a[..] == OneMove(old(a[..]), d, s, traits.dtor)
      ensures sound == (old(sound) && old(a[s]).Obj? && (traits.dtor || old(a[d]).Raw?))
    {
      sound := sound && a[s].Obj? && (traits.dtor || a[d].Raw?);
      a[d] := a[s];
      if !traits.dtor {
        a[s] := Raw;
      }
    }

    /** The loop of move_forward_type, from the last element down, wherever it leads. */
    method MoveFromLast(a: array<Slot<T>>, d: nat, s: nat, n: nat)
      requires d + n <= a.Length && s + n <= a.Length && sound
      modifies a, this`sound
      ensures sound <==> MoveLoop(old(a[..]), d, s, n, traits.dtor).Some?
      ensures sound ==> a[..] == MoveLoop(old(a[..]), d, s, n, traits.dtor).value
    {
      ghost var was := a[..];
      var k := n;
      while k > 0
        invariant 0 <= k <= n
        invariant MoveLoop(was, d, s, n, traits.dtor) == if sound then MoveLoop(a[..], d, s, k, traits.dtor) else None
      {
        k := k - 1;
        MoveOne(a, d + k, s + k);
      }
    }

    /** _do_move_forward. */
    method DoMoveForward(a: array<Slot<T>>, d: nat, s: nat, n: nat)
      requires d + n <= a.Length && s + n <= a.Length && sound
      modifies a, this`sound
      ensures sound <==> Forwarded(old(a[..]), d, s, n, UsesMemmove(), traits.dtor).Some?
      ensures sound ==> a[..] == Forwarded(old(a[..]), d, s, n, UsesMemmove(), traits.dtor).value
    {
      if UsesMemmove() {
        Memmove(a, d, s, n);
      } else {
        MoveFromLast(a, d, s, n);
      }
    }

    // -------------------------------------------------------------------------
    // Storage
    // -------------------------------------------------------------------------

    /** SharedBuffer::alloc. */
    method Alloc(capacity: nat) returns (a: array<Slot<T>>)
      ensures fresh(a) && a.Length == capacity && forall i :: 0 <= i < capacity ==> a[i].Raw?
    {
      a := new Slot<T>[capacity](_ => Raw);
    }

    /** SharedBuffer::editResize by its only owner: what fits is kept. */
    method EditResize(capacity: nat) returns (a: array<Slot<T>>)
      requires storage != null
      ensures a.Length == capacity && (fresh(a) || a == storage)
      ensures forall i :: 0 <= i < capacity && i < storage.Length ==> a[i] == storage[i]
    {
      if storage.Length == capacity {
        return storage;
      }
      a := Alloc(capacity);
      forall i | 0 <= i < capacity && i < storage.Length {
        a[i] := storage[i];
      }
    }

    /** release_storage by the only owner: every element is destroyed. */
    method ReleaseStorage()
      requires Valid()
      modifies if storage == null then {} else {storage}
      ensures !traits.dtor && storage != null ==> forall i :: 0 <= i < storage.Length ==> storage[i].Raw?
    {
      if storage != null {
        DoDestroy(storage, 0, count);
      }
    }

    // -------------------------------------------------------------------------
    // Insertion
    // -------------------------------------------------------------------------

    ghost function Memory(): set<object>
      reads this
    {
      if storage == null then {} else {storage}
    }

    /** `slots` hold `items` with a gap of `amount` before the one at `where`. */
    ghost predicate Opened(slots: seq<Slot<T>>, items: seq<T>, where: nat, amount: nat) {
      && where <= |items| && |items| + amount <= |slots|
      && (forall i :: 0 <= i < where ==> slots[i] == Obj(items[i]))
      && (forall i :: where + amount <= i < |items| + amount ==> slots[i] == Obj(items[i - amount]))
      && (!traits.dtor ==> forall i :: where <= i < where + amount ==> slots[i].Raw?)
      && (!traits.dtor ==> forall i :: |items| + amount <= i < |slots| ==> slots[i].Raw?)
    }

    lemma OpenedByCopies(slots: seq<Slot<T>>, items: seq<T>, where: nat, amount: nat)
      requires where <= |items| && |items| + amount <= |slots|
      requires forall i :: 0 <= i < where ==> slots[i] == Obj(items[i])
      requires forall i :: where + amount <= i < |items| + amount ==>
        slots[i] == Obj(items[where + (i - (where + amount))])
      requires forall i :: 0 <= i < |slots| && !(0 <= i < where) && !(where + amount <= i < |items| + amount) ==>
        slots[i].Raw?
      ensures Opened(slots, items, where, amount)
    {
    }

    /** The branch of _grow that allocates new storage. */
    method GrowCopy(where: nat, amount: nat, capacity: nat) returns (a: array<Slot<T>>)
      requires Valid() && where <= count && count + amount <= capacity
      modifies Memory()
      ensures fresh(a) && a.Length == capacity && Opened(a[..], old(Items()), where, amount)
      ensures !traits.dtor && storage != null ==> forall i :: 0 <= i < storage.Length ==> storage[i].Raw?
    {
      ghost var items := Items();
      a := Alloc(capacity);
      if where != 0 {
        DoCopy(a, 0, storage, 0, where);
        assert forall i :: 0 <= i < where ==> a[i] == Obj(items[i]);
      }
      if where != count {
        DoCopy(a, where + amount, storage, where, count - where);
      }
      OpenedByCopies(a[..], items, where, amount);
      ReleaseStorage();
    }

    /** When room is made without the loop, or by a move upwards, or to nowhere else. */
    ghost predicate InsertsWell(where: nat, amount: nat)
      reads this
    {
      UsesMemmove() || traits.dtor || amount > 0 || where >= count
    }

    /** Moving what follows `where` up by `amount` opens a gap, exactly if InsertsWell. */
    lemma GapOpens(slots: seq<Slot<T>>, where: nat, amount: nat)
      requires Live(slots, count) && where <= count && count + amount <= |slots|
      ensures var r := Forwarded(slots, where + amount, where, count - where, UsesMemmove(), traits.dtor);
        && (r.Some? <==> InsertsWell(where, amount))
        && (r.Some? ==> Opened(r.value, Values(slots, count), where, amount))
    {
      var r := Forwarded(slots, where + amount, where, count - where, UsesMemmove(), traits.dtor);
      ForwardedWorks(slots, where + amount, where, count - where, UsesMemmove(), traits.dtor);
      if r.Some? {
        OpenedByMove(slots, r.value, where, amount);
      }
    }

    lemma OpenedByMove(slots: seq<Slot<T>>, after: seq<Slot<T>>, where: nat, amount: nat)
      requires Live(slots, count) && where <= count && count + amount <= |slots|
      requires HaveMoved(slots, where + amount, where, count - where, traits.dtor, after)
      ensures Opened(after, Values(slots, count), where, amount)
    {
    }

    /** The branch of _grow that makes room in place. */
    method GrowInPlace(where: nat, amount: nat)
      requires Valid() && where <= count && count + amount <= Capacity() && storage != null
      modifies storage, this`sound
      ensures sound <==> old(InsertsWell(where, amount))
      ensures sound ==> Opened(storage[..], old(Items()), where, amount)
    {
      GapOpens(storage[..], where, amount);
      if where != count {
        DoMoveForward(storage, where + amount, where, count - where);
      } else {
        OpenAtEnd(storage[..], amount);
      }
    }

    lemma OpenAtEnd(slots: seq<Slot<T>>, amount: nat)
      requires Live(slots, count) && count + amount <= |slots|
      ensures Opened(slots, Values(slots, count), count, amount)
    {
    }

    /**
     _grow: room for `amount` elements at `where`. The result says whether it has a
     location, which it has unless it is past the capacity.
     */
    method Grow(where: nat, amount: nat) returns (found: bool)
      requires Valid() && where <= count
      modifies this, Memory()
      ensures sound <==> old(InsertsWell(where, amount))
      ensures count == old(count) + amount && Capacity() >= count
      ensures Capacity() == if old(Capacity()) < count then GrownCapacity(count) else old(Capacity())
      ensures sound && storage != null ==> Opened(storage[..], old(Items()), where, amount)
      ensures storage == null ==> count == 0
      ensures moved == if old(Capacity()) < count then old(moved) + old(count) else old(moved)
      ensures found <==> where < Capacity()
      ensures storage == old(storage) || fresh(Memory())
    {
      var newSize := count + amount;
      if Capacity() < newSize {
        var newCapacity := Max(MIN_CAPACITY, newSize + newSize / 2);
        if storage != null && count == where && traits.copy && traits.dtor {
          storage := EditResize(newCapacity);
        } else {
          storage := GrowCopy(where, amount, newCapacity);
        }
        moved := moved + count;
      } else if storage != null {
        GrowInPlace(where, amount);
      }
      count := newSize;
      found := where < Capacity();
    }

    /** With the item in every slot of the gap, the elements are those of the inserted sequence. */
    lemma Filled(slots: seq<Slot<T>>, after: seq<Slot<T>>, item: T, where: nat, amount: nat, items: seq<T>)
      requires Opened(slots, items, where, amount) && |after| == |slots|
      requires forall i :: 0 <= i < |slots| ==>
        after[i] == if where <= i < where + amount then Obj(item) else slots[i]
      ensures Live(after, |items| + amount)
      ensures Values(after, |items| + amount) == Inserted(items, where, item, amount)
    {
      var all := Inserted(items, where, item, amount);
      forall i | 0 <= i < |all| ensures after[i] == Obj(all[i]) {
        assert i >= where + amount ==> all[i] == items[i - amount];
      }
    }

    /**
     insertAt with an item. Inserting no items where the storage ends is reported as
     NO_MEMORY, though nothing failed and nothing changed.
     */
    method InsertAt(item: T, index: nat, n: nat) returns (r: int)
      requires Valid()
      modifies this, Memory()
      ensures old(IsTight()) ==> IsTight()
      ensures sound <==> old(InsertsWell(index, n))
      ensures index > old(count) ==> r == BAD_INDEX && Valid() && Items() == old(Items())
      ensures index <= old(count) && sound ==> Valid() && Items() == Inserted(old(Items()), index, item, n)
      ensures index <= old(count) ==> r == if n == 0 && index == old(Capacity()) then NO_MEMORY else index
      ensures index <= old(count) ==>
        Capacity() == if old(Capacity()) < count then GrownCapacity(count) else old(Capacity())
      ensures index <= old(count) ==> moved == if old(Capacity()) < count then old(moved) + old(count) else old(moved)
      ensures storage == old(storage) || fresh(Memory())
    {
      if index > count {
        return BAD_INDEX;
      }
      var found := Grow(index, n);
      if !found {
        ghost var nothing := sound && storage != null;
        if nothing {
          Filled(storage[..], storage[..], item, index, 0, old(Items()));
        }
        return NO_MEMORY;
      }
      Splat(item, index, n, old(Items()));
      return index;
    }

    /** The items are put in the gap. */
    method Splat(item: T, where: nat, amount: nat, ghost items: seq<T>)
      requires storage != null && where + amount <= storage.Length && count == |items| + amount
      requires sound ==> Opened(storage[..], items, where, amount)
      requires amount > 0 ==> sound
      modifies storage
      ensures sound ==> Valid() && Items() == Inserted(items, where, item, amount)
    {
      ghost var slots := storage[..];
      DoSplat(storage, where, item, amount);
      if sound {
        Filled(slots, storage[..], item, where, amount, items);
      }
    }

    /** push. */
    method Push(item: T)
      requires Valid()
      modifies this, Memory()
      ensures Valid() && (old(IsTight()) ==> IsTight())
      ensures Items() == old(Items()) + [item]
      ensures Capacity() == PushCapacity(old(Capacity()), old(count))
      ensures moved == PushMoves(old(Capacity()), old(count), old(moved))
      ensures storage == old(storage) || fresh(Memory())
    {
      var _ := InsertAt(item, count, 1);
    }

    // -------------------------------------------------------------------------
    // Removal
    // -------------------------------------------------------------------------

    /** No overlap for the loop, or elements that are destroyed trivially and repeat at the distance moved. */
    ghost predicate ClosesWell(items: seq<T>, where: nat, amount: nat)
      requires where + amount <= |items|
    {
      var following := |items| - amount - where;
      || UsesMemmove() || following <= amount || (traits.dtor && Repeats(items, where + amount, following, amount))
    }

    /** When removing `amount` elements at `where` goes well: into new storage, or by a move that does. */
    ghost predicate RemovesWell(where: nat, amount: nat)
      requires Valid() && where + amount <= count
      reads this, storage
    {
      count - amount < Capacity() / 2 || ClosesWell(Items(), where, amount)
    }

    /** The branch of _shrink that allocates new storage. */
    method ShrinkCopy(where: nat, amount: nat, capacity: nat) returns (a: array<Slot<T>>)
      requires Valid() && storage != null && where + amount <= count && count - amount <= capacity
      modifies storage
      ensures fresh(a) && a.Length == capacity && Live(a[..], count - amount)
      ensures Values(a[..], count - amount) == Removed(old(Items()), where, amount)
      ensures !traits.dtor ==> forall i :: 0 <= i < storage.Length ==> storage[i].Raw?
    {
      ghost var left := Removed(Items(), where, amount);
      a := Alloc(capacity);
      if where != 0 {
        DoCopy(a, 0, storage, 0, where);
      }
      if where != count - amount {
        DoCopy(a, where, storage, where + amount, count - amount - where);
      }
      assert forall i :: 0 <= i < count - amount ==> a[i] == Obj(left[i]);
      ReleaseStorage();
    }

    /** The slots once what is removed was destroyed. */
    ghost predicate Gapped(slots: seq<Slot<T>>, items: seq<T>, where: nat, amount: nat) {
      && where + amount <= |items| <= |slots|
      && (forall i :: 0 <= i < where || where + amount <= i < |items| ==> slots[i] == Obj(items[i]))
      && (if traits.dtor then forall i :: where <= i < where + amount ==> slots[i] == Obj(items[i])
          else forall i :: where <= i < where + amount || |items| <= i < |slots| ==> slots[i].Raw?)
    }

    /** The slots hold the elements without the removed ones, and nothing else. */
    ghost predicate Closed(slots: seq<Slot<T>>, items: seq<T>, where: nat, amount: nat)
      requires where + amount <= |items|
    {
      Live(slots, |items| - amount) && Values(slots, |items| - amount) == Removed(items, where, amount)
    }

    /** Moving what follows down goes well exactly if there is no overlap or the elements repeat. */
    lemma GapMovesWell(slots: seq<Slot<T>>, items: seq<T>, where: nat, amount: nat)
      requires Gapped(slots, items, where, amount)
      ensures CanMove(slots, where, where + amount, |items| - amount - where, traits.dtor)
      ensures MovesWell(slots, where, where + amount, |items| - amount - where, UsesMemmove(), traits.dtor)
         <==> ClosesWell(items, where, amount)
    {
      var s, n := where + amount, |items| - amount - where;
      if Repeats(items, s, n, amount) {
        assert forall i :: s <= i < s + n - amount ==> items[i] == items[i + amount];
      }
      if Repeats(slots, s, n, amount) {
        assert forall i :: s <= i < s + n - amount ==> slots[i] == slots[i + amount];
      }
    }

    lemma ClosedByMove(slots: seq<Slot<T>>, items: seq<T>, where: nat, amount: nat, after: seq<Slot<T>>)
      requires Gapped(slots, items, where, amount) && |after| == |slots|
      requires HaveMoved(slots, where, where + amount, |items| - amount - where, traits.dtor, after)
      ensures Closed(after, items, where, amount)
    {
      var left := Removed(items, where, amount);
      forall i | 0 <= i < |left| ensures after[i] == Obj(left[i]) {
        assert i >= where ==> left[i] == items[i + amount];
      }
    }

    lemma MovedIfClosed(slots: seq<Slot<T>>, items: seq<T>, where: nat, amount: nat, after: seq<Slot<T>>)
      requires traits.dtor && Gapped(slots, items, where, amount) && |after| == |slots|
      requires Closed(after, items, where, amount) && SameOutside(slots, after, where, |items| - amount - where)
      ensures HaveMoved(slots, where, where + amount, |items| - amount - where, true, after)
    {
      var left := Removed(items, where, amount);
      forall i | where <= i < |items| - amount ensures after[i] == slots[where + amount + (i - where)] {
        assert after[i] == Obj(left[i]) && left[i] == items[i + amount];
      }
    }

    /** Moving what follows down by `amount` closes the gap, exactly if ClosesWell. */
    lemma GapCloses(slots: seq<Slot<T>>, items: seq<T>, where: nat, amount: nat)
      requires Gapped(slots, items, where, amount)
      ensures var r := Forwarded(slots, where, where + amount, |items| - amount - where, UsesMemmove(), traits.dtor);
        && (r.Some? && Closed(r.value, items, where, amount) <==> ClosesWell(items, where, amount))
        && (if traits.dtor then r.Some? else r.Some? <==> ClosesWell(items, where, amount))
    {
      var d, s, n := where, where + amount, |items| - amount - where;
      GapMovesWell(slots, items, where, amount);
      ForwardedWorks(slots, d, s, n, UsesMemmove(), traits.dtor);
      var r := Forwarded(slots, d, s, n, UsesMemmove(), traits.dtor);
      if ClosesWell(items, where, amount) {
        ClosedByMove(slots, items, where, amount, r.value);
      } else if traits.dtor && Closed(r.value, items, where, amount) {
        ForwardedOutside(slots, d, s, n, UsesMemmove());
        MovedIfClosed(slots, items, where, amount, r.value);
      }
    }

    /** The branch of _shrink that closes the gap in place. */
    method ShrinkInPlace(where: nat, amount: nat)
      requires Valid() && storage != null && where + amount <= count
      modifies storage, this`sound
      ensures sound && Closed(storage[..], old(Items()), where, amount) <==> ClosesWell(old(Items()), where, amount)
      ensures if traits.dtor then sound else sound <==> ClosesWell(old(Items()), where, amount)
    {
      ghost var items := Items();
      DoDestroy(storage, where, amount);
      GapCloses(storage[..], items, where, amount);
      if where != count - amount {
        DoMoveForward(storage, where, where + amount, count - amount - where);
      } else {
        ClosedByMove(storage[..], items, where, amount, storage[..]);
      }
    }

    /**
     _shrink. The elements are those of the sequence without the removed ones exactly if
     RemovesWell; otherwise an object was constructed over a living one or, where
     destroying is trivial, elements are where others should be.
     */
    method Shrink(where: nat, amount: nat)
      requires Valid() && where + amount <= count
      modifies this, Memory()
      ensures Valid() && Items() == Removed(old(Items()), where, amount) <==> old(RemovesWell(where, amount))
      ensures if traits.dtor then sound else sound <==> old(RemovesWell(where, amount))
      ensures count == old(count) - amount && (old(IsTight()) ==> IsTight())
      ensures old(storage) == null || Capacity() == ShrunkCapacity(old(Capacity()), count)
      ensures storage == old(storage) || fresh(Memory())
    {
      if storage == null {
        return;
      }
      var newSize := count - amount;
      if newSize < Capacity() / 2 {
        var newCapacity := Max(MIN_CAPACITY, newSize * 2);
        if where == newSize && traits.copy && traits.dtor {
          ghost var left := Removed(Items(), where, amount);
          storage := EditResize(newCapacity);
          assert forall i :: 0 <= i < newSize ==> storage[i] == Obj(left[i]);
        } else {
          storage := ShrinkCopy(where, amount, newCapacity);
        }
      } else {
        ShrinkInPlace(where, amount);
      }
      count := newSize;
    }

    /** removeItemsAt. */
    method RemoveItemsAt(index: nat, n: nat) returns (r: int)
      requires Valid()
      modifies this, Memory()
      ensures r == if index + n > old(count) then BAD_VALUE else index
      ensures count == if index + n > old(count) then old(count) else old(count) - n
      ensures index + n > old(count) ==> Valid() && Items() == old(Items())
      ensures index + n <= old(count) ==>
        (Valid() && Items() == Removed(old(Items()), index, n) <==> old(RemovesWell(index, n)))
      ensures index + n <= old(count) && !traits.dtor ==> (sound <==> old(RemovesWell(index, n)))
      ensures old(IsTight()) ==> IsTight()
      ensures old(storage) == null || index + n > old(count) || Capacity() == ShrunkCapacity(old(Capacity()), count)
      ensures storage == old(storage) || fresh(Memory())
    {
      if index + n > count {
        return BAD_VALUE;
      }
      Shrink(index, n);
      return index;
    }

    /** clear. */
    method Clear()
      requires Valid()
      modifies this, Memory()
      ensures Valid() && Items() == [] && (old(IsTight()) ==> IsTight())
      ensures storage == old(storage) || fresh(Memory())
    {
      Shrink(0, count);
    }
  }

  /** Any number of pushes onto a new vector: the elements, and at most three moves for each. */
  method PushAll<T>(traits: Traits, items: seq<T>) returns (v: Vector<T>)
    ensures fresh(v) && v.Valid() && v.Items() == items && v.IsTight()
    ensures v.Capacity() == CapacityAfter(|items|) && v.moved <= 3 * |items|
  {
    v := new Vector<T>(traits);
    var i := 0;
    while i < |items|
      invariant 0 <= i <= |items| && fresh(v) && fresh(v.Memory())
      invariant v.Valid() && v.Items() == items[..i] && v.IsTight()
      invariant v.Capacity() == CapacityAfter(i) && v.moved == MovesAfter(i)
    {
      v.Push(items[i]);
      i := i + 1;
    }
    PushesMoveAtMostThree(|items|);
  }

  /** Inserting nothing into a new vector is answered with NO_MEMORY. */
  method NothingInserted<T>(traits: Traits, item: T) returns (r: int)
    ensures r == NO_MEMORY
  {
    var v := new Vector<T>(traits);
    r := v.InsertAt(item, 0, 0);
  }
}
