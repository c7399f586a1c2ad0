/**
 The queue of Looper.cpp as the fields of its object: sendMessageAtTime and the
 dispatch loop of pollInner, each run by one thread at a time under mLock.  The
 interleavings of many threads are in module Looper.
 */
module LooperQueue {
  import opened Timers
  import opened Looper

  /** A message a handler sends while it runs. */
  datatype Request = Request(uptime: Nanos, what: int)

  /** Everything that the first `n` handlers of a script send. */
  function Script(handlers: seq<seq<Request>>, n: nat): seq<Request> {
    if n == 0 then [] else Script(handlers, n - 1) + if n <= |handlers| then handlers[n - 1] else []
  }

  /** `after` is `before` with an insertion for each request, in order. */
  predicate HasSent(before: seq<Envelope>, requests: seq<Request>, after: seq<Envelope>) {
    && |after| == |before| + |requests| && before <= after
    && forall r :: 0 <= r < |requests| ==>
         after[|before| + r] == Envelope(requests[r].uptime, requests[r].what, |before| + r)
  }

  lemma SentMore(before: seq<Envelope>, requests: seq<Request>, after: seq<Envelope>,
                 more: seq<Request>, last: seq<Envelope>)
    requires HasSent(before, requests, after) && HasSent(after, more, last)
    ensures HasSent(before, requests + more, last)
  {
    forall r | 0 <= r < |requests + more|
      ensures last[|before| + r] == Envelope((requests + more)[r].uptime, (requests + more)[r].what, |before| + r)
    {
      if r >= |requests| {
        assert last[|after| + (r - |requests|)] == last[|before| + r];
      } else {
        assert last[|before| + r] == after[|before| + r];
      }
    }
  }

  /** The messages were called at these times, none before its uptime, in order and between `clock` and `now`. */
  predicate InTime(called: seq<Envelope>, times: seq<Nanos>, clock: Nanos, now: Nanos) {
    && clock <= now && |times| == |called|
    && (forall i :: 0 <= i < |called| ==> called[i].uptime <= times[i] && clock <= times[i] <= now)
    && (forall i, j :: 0 <= i < j < |called| ==> times[i] <= times[j])
  }

  lemma InTimeNext(called: seq<Envelope>, times: seq<Nanos>, clock: Nanos, was: Nanos, now: Nanos, env: Envelope)
    requires InTime(called, times, clock, was) && was <= now && env.uptime <= now
    ensures InTime(called + [env], times + [now], clock, now)
  {
  }

  /** No message was called after one that it is prior to. */
  predicate CalledInOrder(called: seq<Envelope>) {
    forall i, j :: 0 <= i < j < |called| ==> !Prior(called[j], called[i])
  }

  lemma CalledInOrderNext(called: seq<Envelope>, queue: seq<Envelope>, inserted: seq<Envelope>)
    requires CalledInOrder(called) && NonePriorTo(called, queue, inserted) && queue != []
    ensures CalledInOrder(called + [queue[0]])
  {
  }

  class MessageLoop {
    var mMessageEnvelopes: seq<Envelope>
    var mSendingMessage: bool
    var mNextMessageUptime: Nanos
    var wakeEvent: bool
    var inserted: seq<Envelope>  // history: every insertion so far

    /** The queue is in order, and holds insertions of this object. */
    ghost predicate Valid()
      reads this
    {
      && Sorted(mMessageEnvelopes)
      && (forall k :: 0 <= k < |inserted| ==> inserted[k].id == k)
      && (forall k :: 0 <= k < |mMessageEnvelopes| ==> mMessageEnvelopes[k].id < |inserted|)
    }

    constructor ()
      ensures Valid() && mMessageEnvelopes == [] && inserted == []
      ensures !mSendingMessage && mNextMessageUptime == NEVER && !wakeEvent
    {
      mMessageEnvelopes, inserted := [], [];
      mSendingMessage, mNextMessageUptime, wakeEvent := false, NEVER, false;
    }

    method Wake()
      modifies this`wakeEvent
      ensures wakeEvent
    {
      wakeEvent := true;
    }

    /** Inserts behind every message due no later, and wakes the poll thread for a new head. */
    method SendMessageAtTime(uptime: Nanos, what: int)
      requires Valid()
      modifies this`mMessageEnvelopes, this`wakeEvent, this`inserted
      ensures Valid()
      ensures inserted == old(inserted) + [Envelope(uptime, what, |old(inserted)|)]
      ensures mMessageEnvelopes == Inserted(old(mMessageEnvelopes), Envelope(uptime, what, |old(inserted)|))
      ensures wakeEvent == (old(wakeEvent) || (!mSendingMessage && InsertIndex(old(mMessageEnvelopes), uptime) == 0))
    {
      var i := 0;
      var messageCount := |mMessageEnvelopes|;
      while i < messageCount && uptime >= mMessageEnvelopes[i].uptime
        invariant i <= messageCount
        invariant forall k :: 0 <= k < i ==> mMessageEnvelopes[k].uptime <= uptime
      {
        i := i + 1;
      }
      assert i == InsertIndex(mMessageEnvelopes, uptime);
      var messageEnvelope := Envelope(uptime, what, |inserted|);
      InsertKeepsSorted(mMessageEnvelopes, messageEnvelope);
      mMessageEnvelopes := mMessageEnvelopes[..i] + [messageEnvelope] + mMessageEnvelopes[i..];
      inserted := inserted + [messageEnvelope];
      if mSendingMessage {
        return;
      }
      if i == 0 {
        Wake();
      }
    }

    ghost predicate NothingPriorLeft(called: seq<Envelope>)
      reads this
    {
      NonePriorTo(called, mMessageEnvelopes, inserted)
    }

    ghost predicate AccountsFor(called: seq<Envelope>, queue0: seq<Envelope>, inserted0: seq<Envelope>)
      reads this
    {
      Accounts(called, mMessageEnvelopes, inserted, queue0, inserted0)
    }

    /**
     The dispatch loop of pollInner.  The k-th handler called sends the messages
     of `handlers[k]`; handlers beyond the script send nothing.  The clock only moves
     forward; `times` are its readings when the messages were found due.  The wake event
     is not needed for what handlers send: when the loop ends nothing due is left, and
     the cached uptime is that of the head.
     */
    method DispatchDue(handlers: seq<seq<Request>>, clock: Nanos)
      returns (called: seq<Envelope>, times: seq<Nanos>, now: Nanos)
      requires Valid() && !mSendingMessage
      modifies this
      ensures Valid() && !mSendingMessage && wakeEvent == old(wakeEvent)
      ensures mNextMessageUptime == HeadUptime(mMessageEnvelopes)
      ensures mMessageEnvelopes == [] || now < mMessageEnvelopes[0].uptime
      ensures AccountsFor(called, old(mMessageEnvelopes), old(inserted))
      ensures HasSent(old(inserted), Script(handlers, |called|), inserted)
      ensures InTime(called, times, clock, now) && CalledInOrder(called)
    {
      called, times, now := [], [], clock;
      mNextMessageUptime := NEVER;
      assert inserted[|old(inserted)|..] == [];
      while |mMessageEnvelopes| != 0
        invariant Valid() && !mSendingMessage && wakeEvent == old(wakeEvent)
        invariant mNextMessageUptime == NEVER
        invariant AccountsFor(called, old(mMessageEnvelopes), old(inserted))
        invariant NothingPriorLeft(called) && HasSent(old(inserted), Script(handlers, |called|), inserted)
        invariant InTime(called, times, clock, now) && CalledInOrder(called)
        decreases if |called| < |handlers| then |handlers| - |called| else 0, |mMessageEnvelopes|
      {
        var reading: Nanos :| reading >= now;
        ghost var was := now;
        now := reading;
        var messageEnvelope := mMessageEnvelopes[0];
        if messageEnvelope.uptime <= now {
          var requests := if |called| < |handlers| then handlers[|called|] else [];
          ghost var before := inserted;
          InTimeNext(called, times, clock, was, now, messageEnvelope);
          CalledInOrderNext(called, mMessageEnvelopes, inserted);
          DispatchHead(requests, called, old(mMessageEnvelopes), old(inserted));
          SentMore(old(inserted), Script(handlers, |called|), before, requests, inserted);
          called, times := called + [messageEnvelope], times + [now];
        } else {
          mNextMessageUptime := messageEnvelope.uptime;
          break;
        }
      }
    }

    /** One round of the loop: take the head, unlock, call the handler, lock again. */
    method DispatchHead(requests: seq<Request>, ghost called: seq<Envelope>,
                        ghost queue0: seq<Envelope>, ghost inserted0: seq<Envelope>)
      requires Valid() && !mSendingMessage && mMessageEnvelopes != []
      requires NothingPriorLeft(called) && AccountsFor(called, queue0, inserted0)
      modifies this`mMessageEnvelopes, this`mSendingMessage, this`wakeEvent, this`inserted
      ensures Valid() && !mSendingMessage && wakeEvent == old(wakeEvent)
      ensures NothingPriorLeft(called + [old(mMessageEnvelopes[0])])
      ensures AccountsFor(called + [old(mMessageEnvelopes[0])], queue0, inserted0)
      ensures HasSent(old(inserted), requests, inserted)
      ensures requests == [] ==> |mMessageEnvelopes| == |old(mMessageEnvelopes)| - 1
    {
      var messageEnvelope := mMessageEnvelopes[0];
      assert mMessageEnvelopes == [messageEnvelope] + mMessageEnvelopes[1..];
      mMessageEnvelopes := mMessageEnvelopes[1..];
      mSendingMessage := true;
      HandleMessage(requests, called + [messageEnvelope], queue0, inserted0);
      mSendingMessage := false;
    }

    /** A handler that sends `requests` while mSendingMessage is set; `called` are the messages taken so far. */
    method HandleMessage(requests: seq<Request>, ghost called: seq<Envelope>,
                         ghost queue0: seq<Envelope>, ghost inserted0: seq<Envelope>)
      requires Valid() && mSendingMessage
      requires NothingPriorLeft(called) && AccountsFor(called, queue0, inserted0)
      modifies this`mMessageEnvelopes, this`wakeEvent, this`inserted
      ensures Valid() && wakeEvent == old(wakeEvent)
      ensures NothingPriorLeft(called) && AccountsFor(called, queue0, inserted0)
      ensures HasSent(old(inserted), requests, inserted)
      ensures requests == [] ==> mMessageEnvelopes == old(mMessageEnvelopes)
    {
      for r := 0 to |requests|
        invariant Valid() && wakeEvent == old(wakeEvent)
        invariant NothingPriorLeft(called) && AccountsFor(called, queue0, inserted0)
        invariant HasSent(old(inserted), requests[..r], inserted)
        invariant r == 0 ==> mMessageEnvelopes == old(mMessageEnvelopes)
      {
        ghost var queue, ins := mMessageEnvelopes, inserted;
        SendMessageAtTime(requests[r].uptime, requests[r].what);
        ghost var env := Envelope(requests[r].uptime, requests[r].what, |ins|);
        assert requests[..r + 1] == requests[..r] + [requests[r]];
        InsertionAccounted(called, queue, ins, queue0, inserted0, env);
        InsertionIsPriorToNone(called, queue, ins, env);
      }
    }
  }

  /** No queued message is prior to one of `called`, which are among the insertions. */
  predicate NonePriorTo(called: seq<Envelope>, queue: seq<Envelope>, inserted: seq<Envelope>) {
    && (forall i :: 0 <= i < |called| ==> called[i].id < |inserted|)
    && (forall i, k :: 0 <= i < |called| && 0 <= k < |queue| ==> !Prior(queue[k], called[i]))
  }

  /** The queue and `called` hold what the queue held at the start and everything inserted since. */
  predicate Accounts(called: seq<Envelope>, queue: seq<Envelope>, inserted: seq<Envelope>,
                     queue0: seq<Envelope>, inserted0: seq<Envelope>)
  {
    inserted0 <= inserted
    && multiset(called) + multiset(queue) == multiset(queue0) + multiset(inserted[|inserted0|..])
  }

  lemma InsertedElements(queue: seq<Envelope>, env: Envelope)
    ensures multiset(Inserted(queue, env)) == multiset(queue) + multiset{env}
  {
    var i := InsertIndex(queue, env.uptime);
    assert queue == queue[..i] + queue[i..];
  }

  lemma InsertionAccounted(called: seq<Envelope>, queue: seq<Envelope>, inserted: seq<Envelope>,
                           queue0: seq<Envelope>, inserted0: seq<Envelope>, env: Envelope)
    requires Accounts(called, queue, inserted, queue0, inserted0)
    ensures Accounts(called, Inserted(queue, env), inserted + [env], queue0, inserted0)
  {
    InsertedElements(queue, env);
    var since := inserted[|inserted0|..];
    assert (inserted + [env])[|inserted0|..] == since + [env];
    calc {
      multiset(called) + multiset(Inserted(queue, env));
      (multiset(called) + multiset(queue)) + multiset{env};
      (multiset(queue0) + multiset(since)) + multiset{env};
      multiset(queue0) + multiset(since + [env]);
    }
  }

  lemma InsertionIsPriorToNone(called: seq<Envelope>, queue: seq<Envelope>, inserted: seq<Envelope>, env: Envelope)
    requires NonePriorTo(called, queue, inserted) && env.id == |inserted|
    ensures NonePriorTo(called, Inserted(queue, env), inserted + [env])
  {
    var queue' := Inserted(queue, env);
    forall k | 0 <= k < |queue'|
      ensures queue'[k] == env || queue'[k] in queue
    {
    }
  }
}
