/**
 What a run of the looper has to do with what its callers asked for: how long it
 sleeps, which messages it holds and calls, and what becomes of its wake events.
 */
module LooperHistory {
  import opened Chains
  import opened Timers
  import opened Looper

  // ---------------------------------------------------------------------------
  // Sleeping no longer than asked
  // ---------------------------------------------------------------------------

  predicate Sleeps(p: Poller) {
    p.Armed? || p.Waiting?
  }

  /** The fewest milliseconds that cover a delay. */
  predicate Covers(millis: nat, delay: int) {
    delay <= millis * NANOS_PER_MILLI && (millis > 0 ==> (millis - 1) * NANOS_PER_MILLI < delay)
  }

  /**
   The timeout of a sleep is what the caller asked for or, if that is shorter, the
   milliseconds to the cached uptime; a negative one asks for no bound.
   */
  lemma SleepsForTheLeast(ss: seq<State>, acts: seq<Action>, n: nat) returns (millis: nat)
    requires IsRun(ss, acts) && n < |ss| && Sleeps(ss[n].poller)
    ensures var asked, timeout := ss[n].poller.asked as int, ss[n].poller.timeout as int;
      var delay := ss[n].next as int - ss[n].poller.since as int;
      && (asked >= 0 ==> 0 <= timeout <= asked)
      && (ss[n].next == NEVER || delay > LONGEST ==> timeout == asked)
      && (ss[n].next != NEVER && delay <= LONGEST ==>
            Covers(millis, delay) && timeout == if asked < 0 || millis < asked then millis else asked)
    ensures ss[n].poller.Waiting? && ss[n].poller.asked >= 0 ==>
      EndOfWait(ss[n].poller) <= ss[n].poller.start as int + ss[n].poller.asked as int * NANOS_PER_MILLI
  {
    RunInv(ss, acts, n);
    var since, next := ss[n].poller.since, ss[n].next;
    TimeoutCoversDelay(since, next);
    millis := if ToMillisecondTimeoutDelay(since, next) >= 0 then ToMillisecondTimeoutDelay(since, next) as nat else 0;
  }

  /**
   A wait can give up exactly when it has lasted for its timeout, an error may end it at any
   time, and one with a bound lasts no longer than asked.
   */
  lemma WaitsEnd(ss: seq<State>, acts: seq<Action>, n: nat)
    requires IsRun(ss, acts) && n < |ss| && ss[n].poller.Waiting?
    ensures var waited := ss[n].now as int - ss[n].poller.start as int;
      var asked, timeout := ss[n].poller.asked as int, ss[n].poller.timeout as int;
      && (Enabled(ss[n], LeaveWait(false, false)) <==> timeout >= 0 && waited >= timeout * NANOS_PER_MILLI)
      && (asked >= 0 && waited >= asked * NANOS_PER_MILLI ==> Enabled(ss[n], LeaveWait(false, false)))
      && (asked == 0 ==> Enabled(ss[n], LeaveWait(false, false)))
    ensures Enabled(ss[n], LeaveWait(false, true))
  {
    RunInv(ss, acts, n);
    var _ := SleepsForTheLeast(ss, acts, n);
  }

  /** Step `j` is the call of pollInner that set up the sleep after `n` steps. */
  ghost predicate AskedAt(ss: seq<State>, acts: seq<Action>, n: nat, j: nat)
    requires j < n < |ss| == |acts| + 1 && Sleeps(ss[n].poller)
  {
    && acts[j] == Poll(ss[n].poller.asked) && ss[j].now == ss[n].poller.since && ss[j].next == ss[n].next
    && (ss[n].poller.Waiting? ==>
          exists e :: j < e < n && acts[e] == EnterWait && ss[e].now == ss[n].poller.start)
  }

  ghost predicate SleepIsAsked(ss: seq<State>, acts: seq<Action>, n: int) {
    && 0 <= n < |ss| == |acts| + 1
    && (Sleeps(ss[n].poller) ==> exists j: nat :: j < n && AskedAt(ss, acts, n, j))
  }

  /** Only the poll thread's own steps out of a sleep, or into it, change what it waits for. */
  lemma SleepIsAskedNext(ss: seq<State>, acts: seq<Action>, n: nat)
    requires IsRun(ss, acts) && n < |acts| && SleepIsAsked(ss, acts, n)
    ensures SleepIsAsked(ss, acts, n + 1)
  {
    assert Next(ss[n], acts[n], ss[n + 1]);
    if Sleeps(ss[n + 1].poller) {
      if acts[n].Poll? {
        assert AskedAt(ss, acts, n + 1, n);
      } else {
        var j: nat :| j < n && AskedAt(ss, acts, n, j);
        if acts[n] == EnterWait {
          assert acts[n] == EnterWait && ss[n].now == ss[n + 1].poller.start;
        }
        assert AskedAt(ss, acts, n + 1, j);
      }
    }
  }

  /** A sleep has the bound, the time and the cached uptime of a call of pollInner, and starts with the wait. */
  lemma SleepsAsAsked(ss: seq<State>, acts: seq<Action>, n: nat) returns (j: nat)
    requires IsRun(ss, acts) && n < |ss| && Sleeps(ss[n].poller)
    ensures j < n && AskedAt(ss, acts, n, j)
  {
    forall k | 0 <= k < n && SleepIsAsked(ss, acts, k) ensures SleepIsAsked(ss, acts, k + 1) {
      SleepIsAskedNext(ss, acts, k);
    }
    Chain(k => SleepIsAsked(ss, acts, k), 0, n);
    j :| j < n && AskedAt(ss, acts, n, j);
  }

  // ---------------------------------------------------------------------------
  // Wake events
  // ---------------------------------------------------------------------------

  /** The poll thread handles a wake event that ended its wait. */
  predicate Consumes(s: State, a: Action) {
    a == PollerStep && s.poller == Holding(true)
  }

  /** A wake event stays until a wait that an event ended is handled, whatever else happens, and no longer. */
  lemma WakeStays(s: State, a: Action)
    requires Enabled(s, a)
    ensures s.event ==> (Apply(s, a).event <==> !Consumes(s, a))
  {
  }

  /** What is outside the looper is free: time passes as it likes, and anyone may wake or send at any time. */
  lemma AnyoneMay(s: State, later: Nanos, i: nat, uptime: Nanos, what: int)
    ensures Enabled(s, Tick(later)) <==> later >= s.now
    ensures Enabled(s, ExternalWake)
    ensures i < |s.senders| ==>
      (Enabled(s, Send(i, uptime, what)) <==> s.senders[i] == Outside)
      && (s.senders[i] == Outside ==> !Enabled(s, SenderStep(i)))
  {
  }

  /** wake() is called, by anyone. */
  predicate Wakes(s: State, a: Action) {
    a == ExternalWake || (a.SenderStep? && a.i < |s.senders| && s.senders[a.i] == Waking)
  }

  /**
   A wait during or before which wake() is called can end, unless a wait that an event
   ended was handled in between.
   */
  lemma WakeEndsWait(ss: seq<State>, acts: seq<Action>, n: nat, m: nat)
    requires IsRun(ss, acts) && n < m < |ss| && Wakes(ss[n], acts[n])
    requires forall k :: n < k < m ==> !Consumes(ss[k], acts[k])
    ensures ss[m].event && (ss[m].poller.Waiting? ==> Enabled(ss[m], LeaveWait(true, false)))
  {
    assert Next(ss[n], acts[n], ss[n + 1]);
    forall k: int | n + 1 <= k < m && EventAt(ss, k) ensures EventAt(ss, k + 1) {
      assert Next(ss[k], acts[k], ss[k + 1]);
      WakeStays(ss[k], acts[k]);
    }
    Chain(k => EventAt(ss, k), n + 1, m);
  }

  predicate EventAt(ss: seq<State>, k: int) {
    0 <= k < |ss| && ss[k].event
  }

  ghost predicate WaitSawEvent(ss: seq<State>, acts: seq<Action>, n: int) {
    && 0 <= n < |ss| == |acts| + 1
    && (ss[n].poller == Returned(true) || ss[n].poller == Holding(true) ==>
          ss[n].event && exists j :: 0 <= j < n && acts[j] == LeaveWait(true, false) && ss[j].event)
  }

  lemma WaitSawEventNext(ss: seq<State>, acts: seq<Action>, n: nat)
    requires IsRun(ss, acts) && n < |acts| && WaitSawEvent(ss, acts, n)
    ensures WaitSawEvent(ss, acts, n + 1)
  {
    assert Next(ss[n], acts[n], ss[n + 1]);
    WakeStays(ss[n], acts[n]);
    if ss[n + 1].poller == Returned(true) && ss[n].poller != Returned(true) {
      assert acts[n] == LeaveWait(true, false) && ss[n].event;
    }
  }

  /** A wait that timed out or failed leaves a pending event alone: only one that an event ended consumes it. */
  lemma ConsumedByItsWait(ss: seq<State>, acts: seq<Action>, n: nat)
    requires IsRun(ss, acts) && n < |acts|
    ensures ss[n].event && !ss[n + 1].event ==> Consumes(ss[n], acts[n])
    ensures Consumes(ss[n], acts[n]) ==>
      ss[n].event && !ss[n + 1].event && exists j :: 0 <= j < n && acts[j] == LeaveWait(true, false) && ss[j].event
  {
    forall k | 0 <= k < n && WaitSawEvent(ss, acts, k) ensures WaitSawEvent(ss, acts, k + 1) {
      WaitSawEventNext(ss, acts, k);
    }
    Chain(k => WaitSawEvent(ss, acts, k), 0, n);
    assert Next(ss[n], acts[n], ss[n + 1]);
    WakeStays(ss[n], acts[n]);
  }

  // ---------------------------------------------------------------------------
  // Where messages come from
  // ---------------------------------------------------------------------------

  /** The sender is inside sendMessageAtTime and has not inserted its message yet. */
  predicate IsPending(sender: Sender) {
    sender.Locking? || sender.Inserting?
  }

  /** The last of the first `n` actions that is a send of sender `i`; -1 if none is. */
  function LastSend(acts: seq<Action>, i: nat, n: nat): (j: int)
    requires n <= |acts|
    ensures -1 <= j < n && (j >= 0 ==> acts[j].Send? && acts[j].i == i)
    ensures forall k :: j < k < n ==> !(acts[k].Send? && acts[k].i == i)
  {
    if n == 0 then -1 else if acts[n - 1].Send? && acts[n - 1].i == i then n - 1 else LastSend(acts, i, n - 1)
  }

  /** For each message inserted in the first `n` steps, the action that sent it. */
  function Origins(ss: seq<State>, acts: seq<Action>, n: nat): seq<int>
    requires n <= |acts| < |ss|
  {
    if n == 0 then []
    else if Inserts(ss[n - 1], acts[n - 1]) then
      Origins(ss, acts, n - 1) + [LastSend(acts, acts[n - 1].i, n - 1)]
    else Origins(ss, acts, n - 1)
  }

  /** `j` is an action that asked for the message `e`. */
  predicate Asks(acts: seq<Action>, n: nat, j: int, uptime: Nanos, what: int)
    requires n <= |acts|
  {
    0 <= j < n && acts[j].Send? && acts[j].uptime == uptime && acts[j].what == what
  }

  /** Each inserted message is what an action of its own asked for. */
  ghost predicate FromSends(acts: seq<Action>, n: nat, sent: seq<Envelope>, from: seq<int>)
    requires n <= |acts|
  {
    && |from| == |sent|
    && (forall k :: 0 <= k < |from| ==> Asks(acts, n, from[k], sent[k].uptime, sent[k].what))
    && (forall k, l :: 0 <= k < l < |from| ==> from[k] != from[l])
  }

  /** A sender that has yet to insert holds what its last send asked for. */
  ghost predicate Holds(acts: seq<Action>, n: nat, sender: Sender, i: nat, from: seq<int>)
    requires n <= |acts|
  {
    IsPending(sender) ==>
      var j := LastSend(acts, i, n);
      Asks(acts, n, j, sender.uptime, sender.what) && j !in from
  }

  /** Every other send was inserted. */
  ghost predicate AllOthers(acts: seq<Action>, n: nat, senders: seq<Sender>, from: seq<int>)
    requires n <= |acts|
  {
    forall j :: 0 <= j < n && acts[j].Send? && j !in from ==>
      acts[j].i < |senders| && IsPending(senders[acts[j].i]) && j == LastSend(acts, acts[j].i, n)
  }

  ghost predicate Traced(ss: seq<State>, acts: seq<Action>, n: int) {
    && 0 <= n <= |acts| < |ss|
    && var from := Origins(ss, acts, n);
    && FromSends(acts, n, ss[n].sent, from)
    && (forall i :: 0 <= i < |ss[n].senders| ==> Holds(acts, n, ss[n].senders[i], i, from))
    && AllOthers(acts, n, ss[n].senders, from)
  }

  /** The message of a sender goes with the send that it was asked for by. */
  lemma InsertTraces(ss: seq<State>, acts: seq<Action>, n: nat)
    requires n < |acts| < |ss| && Traced(ss, acts, n) && Enabled(ss[n], acts[n]) && ss[n + 1] == Apply(ss[n], acts[n])
    requires Inserts(ss[n], acts[n])
    ensures Traced(ss, acts, n + 1)
  {
    var i, from := acts[n].i, Origins(ss, acts, n);
    var j := LastSend(acts, i, n);
    assert Origins(ss, acts, n + 1) == from + [j];
    var senders, senders' := ss[n].senders, ss[n + 1].senders;
    assert Holds(acts, n, senders[i], i, from);
    forall k | 0 <= k < |senders'| ensures Holds(acts, n + 1, senders'[k], k, from + [j]) {
      if k != i {
        assert Holds(acts, n, senders[k], k, from) && LastSend(acts, k, n + 1) == LastSend(acts, k, n);
      }
    }
    assert FromSends(acts, n + 1, ss[n + 1].sent, from + [j]);
    assert AllOthers(acts, n + 1, senders', from + [j]);
  }

  lemma SendTraces(ss: seq<State>, acts: seq<Action>, n: nat)
    requires n < |acts| < |ss| && Traced(ss, acts, n) && Enabled(ss[n], acts[n]) && ss[n + 1] == Apply(ss[n], acts[n])
    requires acts[n].Send?
    ensures Traced(ss, acts, n + 1)
  {
    var i, from := acts[n].i, Origins(ss, acts, n);
    assert Origins(ss, acts, n + 1) == from;
    var senders, senders' := ss[n].senders, ss[n + 1].senders;
    assert LastSend(acts, i, n + 1) == n;
    assert n !in from;
    forall k | 0 <= k < |senders'| ensures Holds(acts, n + 1, senders'[k], k, from) {
      if k != i {
        assert Holds(acts, n, senders[k], k, from) && LastSend(acts, k, n + 1) == LastSend(acts, k, n);
      }
    }
    assert FromSends(acts, n + 1, ss[n + 1].sent, from);
    assert AllOthers(acts, n + 1, senders', from);
  }

  lemma OtherTraces(ss: seq<State>, acts: seq<Action>, n: nat)
    requires n < |acts| < |ss| && Traced(ss, acts, n) && Enabled(ss[n], acts[n]) && ss[n + 1] == Apply(ss[n], acts[n])
    requires !acts[n].Send? && !Inserts(ss[n], acts[n])
    ensures Traced(ss, acts, n + 1)
  {
    var from := Origins(ss, acts, n);
    assert Origins(ss, acts, n + 1) == from && ss[n + 1].sent == ss[n].sent;
    PendingStays(ss[n], acts[n]);
    var senders, senders' := ss[n].senders, ss[n + 1].senders;
    forall k | 0 <= k < |senders'| ensures Holds(acts, n + 1, senders'[k], k, from) {
      assert Holds(acts, n, senders[k], k, from) && LastSend(acts, k, n + 1) == LastSend(acts, k, n);
    }
    assert FromSends(acts, n + 1, ss[n + 1].sent, from);
    OthersStay(acts, n, senders, senders', from);
  }

  predicate SamePending(sender: Sender, sender': Sender) {
    && (IsPending(sender) <==> IsPending(sender'))
    && (IsPending(sender) ==> sender'.uptime == sender.uptime && sender'.what == sender.what)
  }

  /** Only a send and an insertion change what is pending. */
  lemma PendingStays(s: State, a: Action)
    requires Enabled(s, a) && !a.Send? && !Inserts(s, a)
    ensures |Apply(s, a).senders| == |s.senders|
    ensures forall i :: 0 <= i < |s.senders| ==> SamePending(s.senders[i], Apply(s, a).senders[i])
  {
  }

  lemma OthersStay(acts: seq<Action>, n: nat, senders: seq<Sender>, senders': seq<Sender>, from: seq<int>)
    requires n < |acts| && !acts[n].Send? && AllOthers(acts, n, senders, from) && |senders'| == |senders|
    requires forall i :: 0 <= i < |senders| ==> SamePending(senders[i], senders'[i])
    ensures AllOthers(acts, n + 1, senders', from)
  {
    forall j | 0 <= j < n + 1 && acts[j].Send? && j !in from
      ensures acts[j].i < |senders'| && IsPending(senders'[acts[j].i]) && j == LastSend(acts, acts[j].i, n + 1)
    {
      assert LastSend(acts, acts[j].i, n + 1) == LastSend(acts, acts[j].i, n);
    }
  }

  lemma RunTraced(ss: seq<State>, acts: seq<Action>, n: nat)
    requires IsRun(ss, acts) && n < |ss|
    ensures Traced(ss, acts, n)
  {
    forall k: int | 0 <= k < n && Traced(ss, acts, k) ensures Traced(ss, acts, k + 1) {
      assert Next(ss[k], acts[k], ss[k + 1]);
      if Inserts(ss[k], acts[k]) {
        InsertTraces(ss, acts, k);
      } else if acts[k].Send? {
        SendTraces(ss, acts, k);
      } else {
        OtherTraces(ss, acts, k);
      }
    }
    Chain(k => Traced(ss, acts, k), 0, n);
  }

  lemma {:induction false} OriginsGrow(ss: seq<State>, acts: seq<Action>, m: nat, n: nat)
    requires m <= n <= |acts| < |ss|
    ensures Origins(ss, acts, m) <= Origins(ss, acts, n)
    decreases n
  {
    if m < n {
      OriginsGrow(ss, acts, m, n - 1);
    }
  }

  /** Action `j` was a send, and its sender is past the insertion after `m` steps. */
  predicate HasSent(ss: seq<State>, acts: seq<Action>, j: nat, m: nat)
    requires j < m <= |acts| < |ss|
  {
    acts[j].Send? && acts[j].i < |ss[m].senders| && !IsPending(ss[m].senders[acts[j].i])
  }

  /**
   In every run the messages inserted are those that were sent: each has the uptime and the
   contents that an action of its own asked for, and every send whose sender has since been
   seen past the insertion has one. By EveryMessageOnce each of them is then in exactly one
   place.
   */
  lemma SentAsAsked(ss: seq<State>, acts: seq<Action>, n: nat)
    requires IsRun(ss, acts) && n < |ss|
    ensures FromSends(acts, n, ss[n].sent, Origins(ss, acts, n))
    ensures forall j, m :: 0 <= j < m <= n && HasSent(ss, acts, j, m) ==> j in Origins(ss, acts, n)
  {
    RunTraced(ss, acts, n);
    forall j, m | 0 <= j < m <= n && HasSent(ss, acts, j, m) ensures j in Origins(ss, acts, n) {
      RunTraced(ss, acts, m);
      OriginsGrow(ss, acts, m, n);
    }
  }

  // ---------------------------------------------------------------------------
  // Which messages are called, and when
  // ---------------------------------------------------------------------------

  /** The steps among the first `n` in which the poll thread calls a handler. */
  function CallSteps(ss: seq<State>, acts: seq<Action>, n: nat): (cs: seq<nat>)
    requires n <= |acts| < |ss|
    ensures forall k :: 0 <= k < |cs| ==> cs[k] < n && acts[cs[k]] == PollerStep && ss[cs[k]].poller.Calling?
  {
    if n == 0 then []
    else if acts[n - 1] == PollerStep && ss[n - 1].poller.Calling? then CallSteps(ss, acts, n - 1) + [n - 1]
    else CallSteps(ss, acts, n - 1)
  }

  ghost predicate CallsRecorded(ss: seq<State>, acts: seq<Action>, n: int) {
    && 0 <= n <= |acts| < |ss|
    && var steps := CallSteps(ss, acts, n);
    && |steps| == |ss[n].dispatched|
    && forall k :: 0 <= k < |steps| ==>
         ss[n].dispatched[k] == Dispatch(ss[steps[k]].poller.env, ss[steps[k]].now)
  }

  /** The recorded calls are the steps that make one, in order, with the message in hand and the time of the step. */
  lemma EveryCallRecorded(ss: seq<State>, acts: seq<Action>, n: nat)
    requires IsRun(ss, acts) && n < |ss|
    ensures CallsRecorded(ss, acts, n)
  {
    forall k: int | 0 <= k < n && CallsRecorded(ss, acts, k) ensures CallsRecorded(ss, acts, k + 1) {
      assert Next(ss[k], acts[k], ss[k + 1]);
    }
    Chain(k => CallsRecorded(ss, acts, k), 0, n);
  }

  /** A message in hand is one of those inserted. */
  lemma InHandIsSent(ss: seq<State>, acts: seq<Action>, n: nat)
    requires IsRun(ss, acts) && n < |ss| && ss[n].poller.Calling?
    ensures ss[n].poller.env.id < |ss[n].sent| && ss[n].sent[ss[n].poller.env.id] == ss[n].poller.env
  {
    RunInv(ss, acts, n);
    assert ss[n].poller.env in multiset(ss[n].sent);
  }

  /**
   No handler is called before the uptime that an earlier send asked for, and it is called
   with what that send gave.
   */
  lemma CalledAsAsked(ss: seq<State>, acts: seq<Action>, n: nat, k: nat)
    requires IsRun(ss, acts) && n < |ss| && k < |ss[n].dispatched|
    ensures k < |CallSteps(ss, acts, n)|
    ensures var c, call := CallSteps(ss, acts, n)[k], ss[n].dispatched[k];
      && call.env.id < |Origins(ss, acts, c)|
      && var j := Origins(ss, acts, c)[call.env.id];
         0 <= j < c && acts[j].Send? && call.env.what == acts[j].what && acts[j].uptime <= call.time == ss[c].now
  {
    EveryCallRecorded(ss, acts, n);
    NeverEarly(ss, acts, n, k);
    var c := CallSteps(ss, acts, n)[k];
    InHandIsSent(ss, acts, c);
    RunTraced(ss, acts, c);
  }

  lemma TwiceInMultiset<A>(xs: seq<A>, k: nat, l: nat)
    requires k < l < |xs| && xs[k] == xs[l]
    ensures multiset(xs)[xs[k]] >= 2
  {
    assert xs == xs[..l] + xs[l..];
    assert xs[..l][k] == xs[k] && xs[l..][0] == xs[k];
    assert xs[k] in multiset(xs[..l]) && xs[k] in multiset(xs[l..]);
  }

  /** Different calls are for different sends. */
  lemma OneCallForEachSend(ss: seq<State>, acts: seq<Action>, n: nat, k: nat, l: nat)
    requires IsRun(ss, acts) && n < |ss| && k < l < |ss[n].dispatched|
    ensures var d := ss[n].dispatched;
      && d[k].env.id < |Origins(ss, acts, n)| && d[l].env.id < |Origins(ss, acts, n)|
      && Origins(ss, acts, n)[d[k].env.id] != Origins(ss, acts, n)[d[l].env.id]
  {
    RunTraced(ss, acts, n);
    RunInv(ss, acts, n);
    var es := Handled(ss[n].dispatched);
    QueuedIdsAreOld(ss[n], es[k]);
    QueuedIdsAreOld(ss[n], es[l]);
    if es[k].id == es[l].id {
      TwiceInMultiset(es, k, l);
      EveryMessageOnce(ss, acts, n, es[k].id);
    }
  }

  // ---------------------------------------------------------------------------
  // Who is woken
  // ---------------------------------------------------------------------------

  /** The message inserted in step `n` becomes the head. */
  predicate BecomesHead(s: State, i: nat)
    requires i < |s.senders| && s.senders[i].Inserting?
  {
    s.queue == [] || s.senders[i].uptime < s.queue[0].uptime
  }

  /**
   A sender that inserted its message in step `a`, and leaves the lock in step `b`, goes on
   to wake the poll thread exactly if its message became the head and no handler is being
   called.
   */
  lemma WakesForNewHead(ss: seq<State>, acts: seq<Action>, i: nat, a: nat, b: nat)
    requires IsRun(ss, acts) && a < b < |acts|
    requires i < |ss[a].senders| && ss[a].senders[i].Inserting? && acts[a] == SenderStep(i) == acts[b]
    requires forall k :: a < k < b ==> acts[k] != SenderStep(i)
    ensures i < |ss[b].senders| && i < |ss[b + 1].senders|
    ensures ss[b + 1].senders[i] == Waking <==>
              BecomesHead(ss[a], i) && !ss[b].poller.Calling? && !ss[b].poller.Called?
  {
    var index := InsertIndex(ss[a].queue, ss[a].senders[i].uptime);
    assert Next(ss[a], acts[a], ss[a + 1]);
    forall k: int | a + 1 <= k < b && TestsAt(ss, i, index, k) ensures TestsAt(ss, i, index, k + 1) {
      assert Next(ss[k], acts[k], ss[k + 1]);
    }
    Chain(k => TestsAt(ss, i, index, k), a + 1, b);
    assert Next(ss[b], acts[b], ss[b + 1]);
    RunInv(ss, acts, b);
  }

  predicate TestsAt(ss: seq<State>, i: nat, index: nat, k: int) {
    0 <= k < |ss| && i < |ss[k].senders| && ss[k].senders[i] == Testing(index)
  }
}
