/**
 The queue of Looper.cpp in the vector that holds it. Modules Looper and
 LooperQueue take messages off an ideal sequence; the source takes them off a
 Vector<MessageEnvelope>, whose elements have no trait, so that what follows the
 head is moved down by the right-shifting loop.
 */
module LooperStorage {
  import opened Looper
  import V = VectorData
  import opened VectorStorage

  /** MessageEnvelope holds a strong pointer and declares no trait. */
  const ENVELOPE := Traits(false, false, false, false)

  // ---------------------------------------------------------------------------
  // Taking one message
  // ---------------------------------------------------------------------------

  /** When `size` messages are queued in storage for `capacity`: new storage for the rest, or nothing that overlaps. */
  predicate HeadIsRemovable(size: nat, capacity: nat) {
    size <= 2 || size - 1 < capacity / 2
  }

  /** Removing the head leaves the other messages exactly then. */
  lemma HeadRemoval(v: Vector<Envelope>)
    requires v.traits == ENVELOPE && v.Valid() && v.count > 0
    ensures v.RemovesWell(0, 1) <==> HeadIsRemovable(v.count, v.Capacity())
  {
  }

  /**
   With three messages in the first storage, the third is constructed over the living
   second, which is lost, and moved on to the head; the place of the second is dead.
   */
  lemma ThirdOverSecond(a: Envelope, b: Envelope, c: Envelope)
    ensures V.MoveLoop([V.Raw, V.Obj(b), V.Obj(c), V.Raw], 0, 1, 2, false) == V.None
    ensures V.OneMove(V.OneMove([V.Raw, V.Obj(b), V.Obj(c), V.Raw], 1, 2, false), 0, 1, false)
         == [V.Obj(c), V.Raw, V.Raw, V.Raw]
  {
  }

  /** Three messages, of which the head is taken. */
  method ThreeMessages(a: Envelope, b: Envelope, c: Envelope) returns (v: Vector<Envelope>)
    ensures fresh(v) && v.count == 2 && !v.sound
  {
    v := new Vector<Envelope>(ENVELOPE);
    v.Push(a);
    v.Push(b);
    v.Push(c);
    HeadRemoval(v);
    v.Shrink(0, 1);
  }

  // ---------------------------------------------------------------------------
  // Runs
  // ---------------------------------------------------------------------------

  /** The capacity of the storage after `n` steps. */
  function CapacityAt(ss: seq<State>, acts: seq<Action>, n: nat): nat
    requires n <= |acts| < |ss|
  {
    if n == 0 then 0
    else
      var c, size := CapacityAt(ss, acts, n - 1), |ss[n - 1].queue|;
      if Inserts(ss[n - 1], acts[n - 1]) then V.PushCapacity(c, size)
      else if Takes(ss[n - 1], acts[n - 1]) then V.ShrunkCapacity(c, size - 1)
      else c
  }

  /** Step `k` does not take a message that cannot be removed. */
  predicate TakesWell(ss: seq<State>, acts: seq<Action>, k: nat)
    requires k < |acts| < |ss|
  {
    Takes(ss[k], acts[k]) ==> HeadIsRemovable(|ss[k].queue|, CapacityAt(ss, acts, k))
  }

  /** No message is taken while three or more are queued. */
  predicate TakesFromFew(s: State, a: Action) {
    Takes(s, a) ==> |s.queue| <= 2
  }

  lemma StepSizes(s: State, a: Action)
    requires Enabled(s, a)
    ensures Inserts(s, a) ==> |Apply(s, a).queue| == |s.queue| + 1
    ensures Takes(s, a) ==> |Apply(s, a).queue| == |s.queue| - 1
    ensures !Inserts(s, a) && !Takes(s, a) ==> Apply(s, a).queue == s.queue
  {
  }

  /** As long as every removal went well the storage is at most half as large again as needed. */
  lemma {:induction false} StorageIsSmall(ss: seq<State>, acts: seq<Action>, n: nat)
    requires IsRun(ss, acts) && n <= |acts| && forall k :: 0 <= k < n ==> TakesWell(ss, acts, k)
    ensures CapacityAt(ss, acts, n) <= V.Max(V.MIN_CAPACITY, |ss[n].queue| + |ss[n].queue| / 2)
  {
    if n > 0 {
      StorageIsSmall(ss, acts, n - 1);
      assert Next(ss[n - 1], acts[n - 1], ss[n]);
      StepSizes(ss[n - 1], acts[n - 1]);
      assert TakesWell(ss, acts, n - 1);
    }
  }

  /** Storage that small never lets the head of three or more messages be removed. */
  lemma NotRemovable(size: nat, capacity: nat)
    requires capacity <= V.Max(V.MIN_CAPACITY, size + size / 2)
    ensures HeadIsRemovable(size, capacity) <==> size <= 2
  {
  }

  /** In a run every removal goes well exactly if no message is taken while three or more are queued. */
  lemma RemovalsGoWell(ss: seq<State>, acts: seq<Action>, n: nat)
    requires IsRun(ss, acts) && n <= |acts|
    ensures (forall k :: 0 <= k < n ==> TakesWell(ss, acts, k))
       <==> (forall k :: 0 <= k < n ==> TakesFromFew(ss[k], acts[k]))
  {
    if forall k :: 0 <= k < n ==> TakesWell(ss, acts, k) {
      forall k | 0 <= k < n ensures TakesFromFew(ss[k], acts[k]) {
        StorageIsSmall(ss, acts, k);
        NotRemovable(|ss[k].queue|, CapacityAt(ss, acts, k));
        assert TakesWell(ss, acts, k);
      }
    } else {
      var k :| 0 <= k < n && !TakesWell(ss, acts, k);
      assert !TakesFromFew(ss[k], acts[k]);
    }
  }

  /** What the source does with the vector in one step. */
  method ReplayStep(v: Vector<Envelope>, s: State, a: Action)
    requires v.traits == ENVELOPE && v.Valid() && v.Items() == s.queue && Enabled(s, a)
    modifies v, v.Memory()
    ensures v.sound <==> Takes(s, a) ==> HeadIsRemovable(|s.queue|, old(v.Capacity()))
    ensures v.sound ==> v.Valid() && v.Items() == Apply(s, a).queue
    ensures v.storage == old(v.storage) || fresh(v.Memory())
    ensures v.Capacity() ==
      if Inserts(s, a) then V.PushCapacity(old(v.Capacity()), |s.queue|)
      else if Takes(s, a) then V.ShrunkCapacity(old(v.Capacity()), |s.queue| - 1)
      else old(v.Capacity())
  {
    if Inserts(s, a) {
      var sender := s.senders[a.i];
      var env := Envelope(sender.uptime, sender.what, |s.sent|);
      var index := InsertIndex(s.queue, sender.uptime);
      InsertedOne(s.queue, index, env);
      var _ := v.InsertAt(env, index, 1);
    } else if Takes(s, a) {
      HeadRemoval(v);
      RemovedHead(s.queue);
      var _ := v.RemoveItemsAt(0, 1);
    }
  }

  /** The vector agrees with the run after `k` steps. */
  ghost predicate Agrees(v: Vector<Envelope>, ss: seq<State>, acts: seq<Action>, k: nat)
    requires k <= |acts| < |ss|
    reads v, v.storage
  {
    v.traits == ENVELOPE && v.Valid() && v.Items() == ss[k].queue && v.Capacity() == CapacityAt(ss, acts, k)
  }

  /** The step after `k` others. */
  method ReplayNext(v: Vector<Envelope>, ss: seq<State>, acts: seq<Action>, k: nat) returns (well: bool)
    requires IsRun(ss, acts) && k < |acts| && Agrees(v, ss, acts, k)
    modifies v, v.Memory()
    ensures well == v.sound == TakesWell(ss, acts, k)
    ensures well ==> Agrees(v, ss, acts, k + 1)
    ensures v.storage == old(v.storage) || fresh(v.Memory())
  {
    assert Next(ss[k], acts[k], ss[k + 1]);
    well := Takes(ss[k], acts[k]) ==> HeadIsRemovable(|ss[k].queue|, v.Capacity());
    ReplayStep(v, ss[k], acts[k]);
  }

  lemma InsertedOne(queue: seq<Envelope>, index: nat, env: Envelope)
    requires index <= |queue|
    ensures V.Inserted(queue, index, env, 1) == queue[..index] + [env] + queue[index..]
  {
    assert V.Repeat(env, 1) == [env];
  }

  lemma RemovedHead(queue: seq<Envelope>)
    requires queue != []
    ensures V.Removed(queue, 0, 1) == queue[1..]
  {
  }

  /**
   The first `n` steps of a run done to a vector, up to a removal that goes wrong. The
   vector then holds the queue of the run exactly if no message was taken while three
   or more were queued.
   */
  method Replay(ss: seq<State>, acts: seq<Action>, n: nat) returns (v: Vector<Envelope>, done: nat)
    requires IsRun(ss, acts) && n <= |acts|
    ensures fresh(v) && done <= n && (v.sound ==> done == n)
    ensures v.sound ==> v.Valid() && v.Items() == ss[n].queue
    ensures v.sound <==> forall k :: 0 <= k < n ==> TakesFromFew(ss[k], acts[k])
  {
    v := new Vector<Envelope>(ENVELOPE);
    done := 0;
    var well := true;
    RemovalsGoWell(ss, acts, n);
    while done < n && well
      invariant done <= n && fresh(v) && fresh(v.Memory()) && well == v.sound
      invariant well <==> forall k :: 0 <= k < done ==> TakesWell(ss, acts, k)
      invariant well ==> Agrees(v, ss, acts, done)
    {
      well := ReplayNext(v, ss, acts, done);
      done := done + 1;
    }
  }
}
