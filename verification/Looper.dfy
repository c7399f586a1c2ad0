/**
 The message queue and wake-up protocol of Looper.cpp: one poll thread and any
 number of sending threads, interleaved at every lock, unlock, clock reading,
 eventfd access and epoll wait.
 */
module Looper {
  import opened Timers

  /** A message in the queue; `id` is its place in the order of all insertions. */
  datatype Envelope = Envelope(uptime: Nanos, what: int, id: nat)

  datatype Lock = Free | HeldByPoller | HeldBySender(i: nat)

  /** A thread inside sendMessageAtTime. */
  datatype Sender =
    | Outside
    | Locking(uptime: Nanos, what: int)    // about to take mLock
    | Inserting(uptime: Nanos, what: int)  // holds mLock, about to scan and insert
    | Testing(index: nat)                  // holds mLock, about to test mSendingMessage and unlock
    | Waking                               // inserted at index 0, unlocked, about to call wake()

  /** The poll thread inside pollInner. */
  datatype Poller =
    | Between                                            // about to read mNextMessageUptime
    | Armed(asked: Int32, timeout: Int32, since: Nanos)  // has its timeout, about to call epoll_wait
    | Waiting(asked: Int32, timeout: Int32, since: Nanos, start: Nanos)  // inside epoll_wait
    | Returned(signalled: bool)                          // about to take mLock
    | Holding(signalled: bool)                           // holds mLock, about to handle the wake event
    | Draining                                           // holds mLock, at the head of the dispatch loop
    | Calling(env: Envelope)                             // has unlocked, about to call the handler
    | Called                                             // the handler returned; about to take mLock

  /** A handler call and the time of it. */
  datatype Dispatch = Dispatch(env: Envelope, time: Nanos)

  datatype State = State(
    queue: seq<Envelope>,      // mMessageEnvelopes
    sending: bool,             // mSendingMessage
    next: Nanos,               // mNextMessageUptime
    event: bool,               // the eventfd counter is not zero
    lock: Lock,                // mLock
    now: Nanos,                // the monotonic clock
    poller: Poller,
    senders: seq<Sender>,
    sent: seq<Envelope>,       // history: every insertion so far
    dispatched: seq<Dispatch>) // history: every handler call so far

  const NEVER: Nanos := LLONG_MAX as Nanos

  // ---------------------------------------------------------------------------
  // Steps
  // ---------------------------------------------------------------------------

  /** The scan of sendMessageAtTime: the first index whose uptime is later. */
  function InsertIndex(queue: seq<Envelope>, uptime: Nanos): (i: nat)
    ensures i <= |queue|
    ensures forall k :: 0 <= k < i ==> queue[k].uptime <= uptime
    ensures i < |queue| ==> uptime < queue[i].uptime
  {
    if queue == [] || uptime < queue[0].uptime then 0 else 1 + InsertIndex(queue[1..], uptime)
  }

  function Inserted(queue: seq<Envelope>, env: Envelope): seq<Envelope> {
    var i := InsertIndex(queue, env.uptime);
    queue[..i] + [env] + queue[i..]
  }

  /** The timeout pollInner passes to epoll_wait, lines 183-192. */
  function EpollTimeout(timeoutMillis: Int32, now: Nanos, next: Nanos): Int32
    requires DelayFits(now, next)
  {
    if timeoutMillis != 0 && next != NEVER then
      var messageTimeout := ToMillisecondTimeoutDelay(now, next);
      if messageTimeout >= 0 && (timeoutMillis < 0 || messageTimeout < timeoutMillis) then messageTimeout
      else timeoutMillis
    else timeoutMillis
  }

  /** The time at which an epoll_wait of `millis` that began at `start` gives up. */
  predicate TimedOut(start: Nanos, now: Nanos, millis: Int32) {
    millis >= 0 && now as int >= start as int + millis as int * NANOS_PER_MILLI
  }

  datatype Action =
    | Tick(later: Nanos)                            // time passes
    | ExternalWake                                  // wake() called by anyone
    | Send(i: nat, uptime: Nanos, what: int)        // sender i enters sendMessageAtTime
    | SenderStep(i: nat)
    | Poll(timeoutMillis: Int32)                    // the poll thread enters pollInner and arms its timeout
    | EnterWait
    | LeaveWait(signalled: bool, error: bool)       // epoll_wait returns: an event, a timeout or an error
    | PollerStep

  predicate SenderEnabled(s: State, i: nat) {
    i < |s.senders| &&
    match s.senders[i]
    case Outside => false
    case Locking(_, _) => s.lock == Free
    case _ => true
  }

  predicate PollerEnabled(s: State) {
    match s.poller
    case Returned(_) | Called => s.lock == Free
    case Holding(_) | Draining | Calling(_) => true
    case _ => false
  }

  predicate Enabled(s: State, a: Action) {
    match a
    case Tick(later) => later >= s.now
    case ExternalWake => true
    case Send(i, _, _) => i < |s.senders| && s.senders[i] == Outside
    case SenderStep(i) => SenderEnabled(s, i)
    case Poll(_) => s.poller == Between && DelayFits(s.now, s.next)
    case EnterWait => s.poller.Armed?
    case LeaveWait(signalled, error) =>
      s.poller.Waiting? &&
      if signalled then s.event && !error else error || TimedOut(s.poller.start, s.now, s.poller.timeout)
    case PollerStep => PollerEnabled(s)
  }

  /** sendMessageAtTime, lines 394-421. */
  function ExecSender(s: State, i: nat): State
    requires SenderEnabled(s, i)
  {
    match s.senders[i]
    case Outside => s
    case Locking(uptime, what) => s.(lock := HeldBySender(i), senders := s.senders[i := Inserting(uptime, what)])
    case Inserting(uptime, what) =>
      var env := Envelope(uptime, what, |s.sent|);
      s.(queue := Inserted(s.queue, env), sent := s.sent + [env],
         senders := s.senders[i := Testing(InsertIndex(s.queue, uptime))])
    case Testing(index) =>
      s.(lock := Free, senders := s.senders[i := if !s.sending && index == 0 then Waking else Outside])
    case Waking => s.(event := true, senders := s.senders[i := Outside])
  }

  /** pollInner from the return of epoll_wait, lines 206-294. */
  function ExecPoller(s: State): State
    requires PollerEnabled(s)
  {
    match s.poller
    case Returned(signalled) => s.(lock := HeldByPoller, poller := Holding(signalled))
    case Holding(signalled) => s.(event := s.event && !signalled, next := NEVER, poller := Draining)
    case Draining =>
      if s.queue == [] then s.(lock := Free, poller := Between)
      else if s.queue[0].uptime <= s.now then
        s.(queue := s.queue[1..], sending := true, lock := Free, poller := Calling(s.queue[0]))
      else s.(next := s.queue[0].uptime, lock := Free, poller := Between)
    case Calling(env) => s.(dispatched := s.dispatched + [Dispatch(env, s.now)], poller := Called)
    case Called => s.(lock := HeldByPoller, sending := false, poller := Draining)
    case _ => s
  }

  function Apply(s: State, a: Action): State
    requires Enabled(s, a)
  {
    match a
    case Tick(later) => s.(now := later)
    case ExternalWake => s.(event := true)
    case Send(i, uptime, what) => s.(senders := s.senders[i := Locking(uptime, what)])
    case SenderStep(i) => ExecSender(s, i)
    case Poll(timeoutMillis) => s.(poller := Armed(timeoutMillis, EpollTimeout(timeoutMillis, s.now, s.next), s.now))
    case EnterWait => s.(poller := Waiting(s.poller.asked, s.poller.timeout, s.poller.since, s.now))
    case LeaveWait(signalled, _) => s.(poller := Returned(signalled))
    case PollerStep => ExecPoller(s)
  }

  // ---------------------------------------------------------------------------
  // No lost wake-up
  // ---------------------------------------------------------------------------

  /** The uptime pollInner should wait for. */
  function HeadUptime(queue: seq<Envelope>): Nanos {
    if queue == [] then NEVER else queue[0].uptime
  }

  /** The poll thread is on its way into epoll_wait, or inside. */
  predicate AtWait(p: Poller) {
    p.Between? || p.Armed? || p.Waiting?
  }

  predicate WillWake(sender: Sender) {
    sender == Testing(0) || sender == Waking
  }

  predicate SomeoneWillWake(s: State) {
    exists i :: 0 <= i < |s.senders| && WillWake(s.senders[i])
  }

  predicate WakeUpKept(s: State) {
    AtWait(s.poller) ==> s.event || SomeoneWillWake(s) || s.next == HeadUptime(s.queue)
  }

  predicate LocksKept(s: State) {
    && (s.sending <==> s.poller.Calling? || s.poller.Called?)
    && (s.lock == HeldByPoller <==> s.poller.Holding? || s.poller.Draining?)
    && (forall i :: 0 <= i < |s.senders| ==>
          (s.lock == HeldBySender(i) <==> s.senders[i].Inserting? || s.senders[i].Testing?))
  }

  /**
   Only the poll thread removes messages, so the cached uptime is never too
   early; while messages are dispatched it is reset.
   */
  predicate CacheKept(s: State) {
    if AtWait(s.poller) || s.poller.Returned? || s.poller.Holding? then HeadUptime(s.queue) <= s.next
    else s.next == NEVER
  }

  predicate Init(s: State) {
    && s.queue == [] && s.sent == [] && s.dispatched == []
    && 0 <= s.now && !s.sending && s.next == NEVER && !s.event && s.lock == Free && s.poller == Between
    && forall i :: 0 <= i < |s.senders| ==> s.senders[i] == Outside
  }

  predicate ProtocolInv(s: State) {
    WakeUpKept(s) && LocksKept(s) && CacheKept(s)
  }

  lemma SenderKeepsProtocol(s: State, i: nat)
    requires ProtocolInv(s) && SenderEnabled(s, i)
    ensures ProtocolInv(ExecSender(s, i))
  {
    var s' := ExecSender(s, i);
    assert s'.senders[i] == s'.senders[i];
    forall k | 0 <= k < |s.senders| && k != i
      ensures s'.senders[k] == s.senders[k]
    {
    }
  }

  lemma PollerKeepsProtocol(s: State)
    requires ProtocolInv(s) && PollerEnabled(s)
    ensures ProtocolInv(ExecPoller(s))
  {
  }

  lemma StepKeepsProtocol(s: State, a: Action)
    requires ProtocolInv(s) && Enabled(s, a)
    ensures ProtocolInv(Apply(s, a))
  {
    match a
    case SenderStep(i) => SenderKeepsProtocol(s, i);
    case PollerStep => PollerKeepsProtocol(s);
    case Send(i, _, _) =>
      var s' := Apply(s, a);
      assert forall k :: 0 <= k < |s.senders| && WillWake(s.senders[k]) ==> WillWake(s'.senders[k]);
    case _ =>
  }

  // ---------------------------------------------------------------------------
  // Timeouts
  // ---------------------------------------------------------------------------

  predicate TimeoutFor(asked: Int32, timeout: Int32, since: Nanos, next: Nanos) {
    DelayFits(since, next) && timeout == EpollTimeout(asked, since, next)
  }

  /** The timeout of a sleep is the one computed from the cached uptime. */
  predicate TimeoutKept(s: State) {
    && (s.poller.Armed? || s.poller.Waiting? ==>
          TimeoutFor(s.poller.asked, s.poller.timeout, s.poller.since, s.next) && s.poller.since <= s.now)
    && (s.poller.Waiting? ==> s.poller.since <= s.poller.start <= s.now)
  }

  lemma StepKeepsTimeout(s: State, a: Action)
    requires TimeoutKept(s) && Enabled(s, a)
    ensures TimeoutKept(Apply(s, a))
  {
    match a
    case SenderStep(i) => assert ExecSender(s, i).poller == s.poller && ExecSender(s, i).next == s.next;
    case PollerStep => assert !ExecPoller(s).poller.Armed? && !ExecPoller(s).poller.Waiting?;
    case _ =>
  }

  // ---------------------------------------------------------------------------
  // Delivery
  // ---------------------------------------------------------------------------

  predicate HeadDue(s: State) {
    s.queue != [] && s.queue[0].uptime <= s.now
  }

  /** The order of the queue: by uptime, then by insertion. */
  predicate Before(a: Envelope, b: Envelope) {
    a.uptime < b.uptime || (a.uptime == b.uptime && a.id < b.id)
  }

  /** `a` was inserted earlier and is due no later: it must be handled first. */
  predicate Prior(a: Envelope, b: Envelope) {
    a.id < b.id && a.uptime <= b.uptime
  }

  function Handled(ds: seq<Dispatch>): (es: seq<Envelope>)
    ensures |es| == |ds| && forall i :: 0 <= i < |ds| ==> es[i] == ds[i].env
  {
    seq(|ds|, i requires 0 <= i < |ds| => ds[i].env)
  }

  /** The message taken off the queue whose handler has not been called yet. */
  function InHand(p: Poller): multiset<Envelope> {
    if p.Calling? then multiset{p.env} else multiset{}
  }

  /** Every inserted message is in exactly one place. */
  predicate Accounted(s: State) {
    && (forall k :: 0 <= k < |s.sent| ==> s.sent[k].id == k)
    && multiset(s.queue) + InHand(s.poller) + multiset(Handled(s.dispatched)) == multiset(s.sent)
  }

  predicate Sorted(queue: seq<Envelope>) {
    forall i, j :: 0 <= i < j < |queue| ==> Before(queue[i], queue[j])
  }

  /** Nothing was taken while a prior message was left behind. */
  predicate InOrder(s: State) {
    && (forall i, j :: 0 <= i < j < |s.dispatched| ==> !Prior(s.dispatched[j].env, s.dispatched[i].env))
    && (forall i, k :: 0 <= i < |s.dispatched| && 0 <= k < |s.queue| ==> !Prior(s.queue[k], s.dispatched[i].env))
    && (s.poller.Calling? ==>
          && (forall i :: 0 <= i < |s.dispatched| ==> !Prior(s.poller.env, s.dispatched[i].env))
          && (forall k :: 0 <= k < |s.queue| ==> !Prior(s.queue[k], s.poller.env)))
  }

  predicate OnTime(s: State) {
    && (forall i :: 0 <= i < |s.dispatched| ==> s.dispatched[i].env.uptime <= s.dispatched[i].time <= s.now)
    && (s.poller.Calling? ==> s.poller.env.uptime <= s.now)
  }

  predicate DeliveryInv(s: State) {
    Accounted(s) && Sorted(s.queue) && InOrder(s) && OnTime(s)
  }

  /** A queued message was inserted, so its id is smaller than the next one. */
  lemma QueuedIdsAreOld(s: State, e: Envelope)
    requires Accounted(s) && (e in s.queue || e in Handled(s.dispatched))
    ensures e.id < |s.sent| && s.sent[e.id] == e
  {
    assert e in multiset(s.queue) + InHand(s.poller) + multiset(Handled(s.dispatched));
    assert e in multiset(s.sent);
  }

  lemma InsertedAddsOne(queue: seq<Envelope>, env: Envelope)
    ensures multiset(Inserted(queue, env)) == multiset(queue) + multiset{env}
  {
    var at := InsertIndex(queue, env.uptime);
    assert queue == queue[..at] + queue[at..];
  }

  lemma InsertKeepsAccounted(s: State, i: nat)
    requires Accounted(s) && SenderEnabled(s, i) && s.senders[i].Inserting?
    ensures Accounted(ExecSender(s, i))
  {
    var s' := ExecSender(s, i);
    var env := Envelope(s.senders[i].uptime, s.senders[i].what, |s.sent|);
    InsertedAddsOne(s.queue, env);
    assert s'.queue == Inserted(s.queue, env) && s'.sent == s.sent + [env];
    assert InHand(s'.poller) == InHand(s.poller) && s'.dispatched == s.dispatched;
    assert multiset(s'.sent) == multiset(s.sent) + multiset{env};
  }

  lemma InsertKeepsSorted(queue: seq<Envelope>, env: Envelope)
    requires Sorted(queue) && forall k :: 0 <= k < |queue| ==> queue[k].id < env.id
    ensures Sorted(Inserted(queue, env))
  {
  }

  /** A new message is prior to nothing, since every other was inserted earlier. */
  lemma InsertKeepsOrder(s: State, i: nat)
    requires InOrder(s) && OnTime(s) && SenderEnabled(s, i) && s.senders[i].Inserting?
    requires forall k :: 0 <= k < |s.dispatched| ==> s.dispatched[k].env.id < |s.sent|
    requires s.poller.Calling? ==> s.poller.env.id < |s.sent|
    ensures InOrder(ExecSender(s, i)) && OnTime(ExecSender(s, i))
  {
    var s' := ExecSender(s, i);
    forall k | 0 <= k < |s'.queue|
      ensures s'.queue[k].id == |s.sent| || s'.queue[k] in s.queue
    {
    }
  }

  lemma InsertKeepsDelivery(s: State, i: nat)
    requires DeliveryInv(s) && SenderEnabled(s, i) && s.senders[i].Inserting?
    ensures DeliveryInv(ExecSender(s, i))
  {
    InsertKeepsAccounted(s, i);
    forall k | 0 <= k < |s.queue|
      ensures s.queue[k].id < |s.sent|
    {
      QueuedIdsAreOld(s, s.queue[k]);
    }
    InsertKeepsSorted(s.queue, Envelope(s.senders[i].uptime, s.senders[i].what, |s.sent|));
    forall k | 0 <= k < |s.dispatched|
      ensures s.dispatched[k].env.id < |s.sent|
    {
      assert Handled(s.dispatched)[k] == s.dispatched[k].env;
      QueuedIdsAreOld(s, s.dispatched[k].env);
    }
    if s.poller.Calling? {
      assert s.poller.env in multiset(s.sent);
    }
    InsertKeepsOrder(s, i);
  }

  lemma TakingKeepsAccounted(s: State)
    requires Accounted(s) && s.poller.Draining? && HeadDue(s)
    ensures Accounted(ExecPoller(s))
  {
    assert s.queue == [s.queue[0]] + s.queue[1..];
  }

  lemma CallingKeepsAccounted(s: State)
    requires Accounted(s) && s.poller.Calling?
    ensures Accounted(ExecPoller(s))
  {
    assert Handled(ExecPoller(s).dispatched) == Handled(s.dispatched) + [s.poller.env];
  }

  lemma TakingKeepsOrder(s: State)
    requires DeliveryInv(s) && s.poller.Draining? && HeadDue(s)
    ensures Sorted(ExecPoller(s).queue) && InOrder(ExecPoller(s)) && OnTime(ExecPoller(s))
  {
  }

  lemma CallingKeepsOrder(s: State)
    requires DeliveryInv(s) && s.poller.Calling?
    ensures InOrder(ExecPoller(s)) && OnTime(ExecPoller(s))
  {
  }

  /** A step that moves no message leaves every message where it was. */
  predicate MovesNothing(s: State, s': State) {
    && s'.queue == s.queue && s'.sent == s.sent && s'.dispatched == s.dispatched && s'.now >= s.now
    && (s'.poller == s.poller || (!s.poller.Calling? && !s'.poller.Calling?))
  }

  lemma MovingNothingKeepsDelivery(s: State, s': State)
    requires DeliveryInv(s) && MovesNothing(s, s')
    ensures DeliveryInv(s')
  {
    assert InHand(s'.poller) == InHand(s.poller);
  }

  lemma PollerKeepsDelivery(s: State)
    requires DeliveryInv(s) && PollerEnabled(s)
    ensures DeliveryInv(ExecPoller(s))
  {
    if s.poller.Draining? && HeadDue(s) {
      TakingKeepsAccounted(s);
      TakingKeepsOrder(s);
    } else if s.poller.Calling? {
      CallingKeepsAccounted(s);
      CallingKeepsOrder(s);
    } else {
      assert MovesNothing(s, ExecPoller(s));
      MovingNothingKeepsDelivery(s, ExecPoller(s));
    }
  }

  lemma StepKeepsDelivery(s: State, a: Action)
    requires DeliveryInv(s) && Enabled(s, a)
    ensures DeliveryInv(Apply(s, a))
  {
    match a
    case SenderStep(i) =>
      if s.senders[i].Inserting? {
        InsertKeepsDelivery(s, i);
      } else {
        MovingNothingKeepsDelivery(s, Apply(s, a));
      }
    case PollerStep => PollerKeepsDelivery(s);
    case _ => MovingNothingKeepsDelivery(s, Apply(s, a));
  }

  /** The step in which a sender inserts its message. */
  predicate Inserts(s: State, a: Action) {
    a.SenderStep? && a.i < |s.senders| && s.senders[a.i].Inserting?
  }

  /** The step in which the poll thread takes the head off the queue. */
  predicate Takes(s: State, a: Action) {
    a == PollerStep && s.poller == Draining && HeadDue(s)
  }

  // ---------------------------------------------------------------------------
  // Whole runs
  // ---------------------------------------------------------------------------

  ghost predicate Next(s: State, a: Action, s': State) {
    Enabled(s, a) && s' == Apply(s, a)
  }

  ghost predicate IsRun(ss: seq<State>, acts: seq<Action>) {
    && |ss| == |acts| + 1
    && Init(ss[0])
    && forall i :: 0 <= i < |acts| ==> Next(ss[i], acts[i], ss[i + 1])
  }

  predicate Inv(s: State) {
    ProtocolInv(s) && TimeoutKept(s) && DeliveryInv(s)
  }

  lemma {:induction false} RunInv(ss: seq<State>, acts: seq<Action>, n: nat)
    requires IsRun(ss, acts) && n < |ss|
    ensures Inv(ss[n])
  {
    if n > 0 {
      RunInv(ss, acts, n - 1);
      assert Next(ss[n - 1], acts[n - 1], ss[n]);
      StepKeepsProtocol(ss[n - 1], acts[n - 1]);
      StepKeepsTimeout(ss[n - 1], acts[n - 1]);
      StepKeepsDelivery(ss[n - 1], acts[n - 1]);
    }
  }

  /**
   Whenever the poll thread is at or inside epoll_wait, an event is pending, or a
   sender that inserted at the head has yet to wake it, or it sleeps for the
   uptime of the head.
   */
  lemma NoLostWakeUp(ss: seq<State>, acts: seq<Action>, n: nat)
    requires IsRun(ss, acts) && n < |ss| && AtWait(ss[n].poller)
    ensures ss[n].event || SomeoneWillWake(ss[n]) || ss[n].next == HeadUptime(ss[n].queue)
  {
    RunInv(ss, acts, n);
  }

  /** A sender that will wake the poll thread is never blocked, and does so in at most two steps of its own. */
  lemma WakerDelivers(s: State, i: nat)
    requires ProtocolInv(s) && AtWait(s.poller) && i < |s.senders| && WillWake(s.senders[i])
    ensures SenderEnabled(s, i)
    ensures var s' := ExecSender(s, i);
            s'.event || (SenderEnabled(s', i) && ExecSender(s', i).event)
  {
  }

  lemma {:induction false} CountOfDistinct(es: seq<Envelope>, k: nat)
    requires k < |es| && forall i :: 0 <= i < |es| ==> es[i].id == es[0].id + i
    ensures multiset(es)[es[k]] == 1
  {
    assert es == [es[0]] + es[1..];
    if k == 0 {
      assert forall i :: 0 <= i < |es[1..]| ==> es[1..][i].id == es[0].id + 1 + i;
      assert es[0] !in es[1..];
    } else {
      CountOfDistinct(es[1..], k - 1);
    }
  }

  /**
   Every message ever inserted is queued, or with its handler about to be called, or was
   handled: exactly one, exactly once. The queue here loses exactly its head when the head
   is taken; module LooperStorage says when the vector it is kept in does.
   */
  lemma EveryMessageOnce(ss: seq<State>, acts: seq<Action>, n: nat, k: nat)
    requires IsRun(ss, acts) && n < |ss| && k < |ss[n].sent|
    ensures var s, e := ss[n], ss[n].sent[k];
            multiset(s.queue)[e] + InHand(s.poller)[e] + multiset(Handled(s.dispatched))[e] == 1
  {
    RunInv(ss, acts, n);
    var s, e := ss[n], ss[n].sent[k];
    CountOfDistinct(s.sent, k);
    assert (multiset(s.queue) + InHand(s.poller) + multiset(Handled(s.dispatched)))[e] == multiset(s.sent)[e];
  }

  /** No handler is called before the uptime of its message. */
  lemma NeverEarly(ss: seq<State>, acts: seq<Action>, n: nat, k: nat)
    requires IsRun(ss, acts) && n < |ss| && k < |ss[n].dispatched|
    ensures ss[n].dispatched[k].env.uptime <= ss[n].dispatched[k].time
  {
    RunInv(ss, acts, n);
  }

  /** When a message is handled, every message inserted earlier and due no later was handled before it. */
  lemma PriorMessagesFirst(ss: seq<State>, acts: seq<Action>, n: nat, k: nat, a: nat)
    requires IsRun(ss, acts) && n < |ss| && k < |ss[n].dispatched| && a < |ss[n].sent|
    requires Prior(ss[n].sent[a], ss[n].dispatched[k].env)
    ensures exists i :: 0 <= i < k && ss[n].dispatched[i].env == ss[n].sent[a]
  {
    RunInv(ss, acts, n);
    var s, e := ss[n], ss[n].sent[a];
    EveryMessageOnce(ss, acts, n, a);
    assert e in Handled(s.dispatched);
    var i :| 0 <= i < |s.dispatched| && Handled(s.dispatched)[i] == e;
    assert s.dispatched[i].env == e;
  }

  // ---------------------------------------------------------------------------
  // Sleeping long enough, and not too long
  // ---------------------------------------------------------------------------

  /** The sleep lasts for the timeout computed from the head's uptime. */
  predicate SleepsForMessage(s: State) {
    && s.poller.Waiting? && s.poller.asked != 0 && s.next != NEVER
    && DelayFits(s.poller.since, s.next) && s.poller.timeout == ToMillisecondTimeoutDelay(s.poller.since, s.next)
  }

  /** A sleep that runs out its message-derived timeout finds the head due. */
  lemma SleepFindsHeadDue(ss: seq<State>, acts: seq<Action>, n: nat)
    requires IsRun(ss, acts) && n < |ss| && SleepsForMessage(ss[n])
    requires TimedOut(ss[n].poller.start, ss[n].now, ss[n].poller.timeout)
    ensures HeadDue(ss[n])
  {
    RunInv(ss, acts, n);
    var s := ss[n];
    TimeoutCoversDelay(s.poller.since, s.next);
  }

  /** A due head stays due until the poll thread takes it, and the dispatch loop does not end before that. */
  lemma DueHeadIsTaken(s: State, a: Action)
    requires ProtocolInv(s) && Enabled(s, a) && HeadDue(s)
    ensures if a == PollerStep && s.poller == Draining then Apply(s, a).poller == Calling(s.queue[0])
            else HeadDue(Apply(s, a))
  {
  }

  /** The actions of the poll thread once it sleeps. */
  predicate IsPollerAct(a: Action) {
    a.LeaveWait? || a == PollerStep
  }

  /** How many of the steps from `n` to `m` the poll thread makes. */
  function PollerActs(acts: seq<Action>, n: nat, m: nat): nat
    requires n <= m <= |acts|
  {
    if m == n then 0 else PollerActs(acts, n, m - 1) + if IsPollerAct(acts[m - 1]) then 1 else 0
  }

  /** How far the poll thread is from the sleep to the call of a due message, after `k` steps of its own. */
  predicate OnTheWay(s: State, k: nat) {
    match k
    case 0 => s.poller.Waiting? && HeadDue(s)
    case 1 => s.poller.Returned? && HeadDue(s)
    case 2 => s.poller.Holding? && HeadDue(s)
    case 3 => s.poller == Draining && HeadDue(s)
    case 4 => s.poller.Calling? && s.poller.env.uptime <= s.now
    case _ => true
  }

  lemma StepOnTheWay(s: State, a: Action, k: nat)
    requires ProtocolInv(s) && Enabled(s, a) && OnTheWay(s, k) && k < 4
    ensures OnTheWay(Apply(s, a), if IsPollerAct(a) then k + 1 else k)
  {
    DueHeadIsTaken(s, a);
  }

  lemma CallKeepsWaiting(s: State, a: Action)
    requires Enabled(s, a) && OnTheWay(s, 4) && !IsPollerAct(a)
    ensures OnTheWay(Apply(s, a), 4)
  {
  }

  lemma {:induction false} OnTheWayAlong(ss: seq<State>, acts: seq<Action>, n: nat, m: nat)
    requires IsRun(ss, acts) && n <= m <= |acts| && OnTheWay(ss[n], 0) && PollerActs(acts, n, m) <= 4
    ensures OnTheWay(ss[m], PollerActs(acts, n, m))
  {
    if m > n {
      OnTheWayAlong(ss, acts, n, m - 1);
      RunInv(ss, acts, m - 1);
      assert Next(ss[m - 1], acts[m - 1], ss[m]);
      var k := PollerActs(acts, n, m - 1);
      if k < 4 {
        StepOnTheWay(ss[m - 1], acts[m - 1], k);
      } else {
        CallKeepsWaiting(ss[m - 1], acts[m - 1]);
      }
    }
  }

  /**
   In every run, four steps of the poll thread after a sleep ran out its message-derived
   timeout, whatever the others do meanwhile, it is about to call a due message.
   */
  lemma SleepLeadsToCall(ss: seq<State>, acts: seq<Action>, n: nat, m: nat)
    requires IsRun(ss, acts) && n <= m <= |acts| && SleepsForMessage(ss[n])
    requires TimedOut(ss[n].poller.start, ss[n].now, ss[n].poller.timeout)
    requires PollerActs(acts, n, m) == 4
    ensures ss[m].poller.Calling? && ss[m].poller.env.uptime <= ss[m].now
  {
    SleepFindsHeadDue(ss, acts, n);
    OnTheWayAlong(ss, acts, n, m);
  }

  /**
   With nothing pending, a sleep is bounded by the head of the queue exactly when the
   head is at most INT_MAX - 1 milliseconds away. The time-out, computed at `since`, then
   comes less than a millisecond after the head is due, and later than that by as much as
   the wait began after `since` (when `asked` does not end it earlier). Otherwise the
   head has no influence on the timeout.
   */
  lemma SleepEndsAtHead(ss: seq<State>, acts: seq<Action>, n: nat)
    requires IsRun(ss, acts) && n < |ss|
    requires var s := ss[n]; s.poller.Waiting? && s.poller.asked != 0 && !s.event && !SomeoneWillWake(s)
    requires ss[n].queue != [] && ss[n].queue[0].uptime != NEVER
    ensures var s := ss[n];
            var delay := s.queue[0].uptime as int - s.poller.since as int;
            && s.poller.since <= s.poller.start
            && (s.poller.asked >= 0 ==> 0 <= s.poller.timeout <= s.poller.asked)
            && (delay <= 0 ==> s.poller.timeout == 0)
            && (0 < delay <= LONGEST ==>
                  && s.poller.timeout >= 0
                  && EndOfWait(s.poller) < s.queue[0].uptime as int + NANOS_PER_MILLI + StartedLate(s.poller))
            && (delay > LONGEST ==> s.poller.timeout == s.poller.asked)
  {
    RunInv(ss, acts, n);
    TimeoutCoversDelay(ss[n].poller.since, ss[n].next);
  }

  /** The time from the computation of the timeout to the wait. */
  function StartedLate(p: Poller): int
    requires p.Waiting?
  {
    p.start as int - p.since as int
  }

  /** When the timeout ends a wait. */
  function EndOfWait(p: Poller): int
    requires p.Waiting?
  {
    p.start as int + p.timeout as int * NANOS_PER_MILLI
  }

  /** So a message too far away leaves an unbounded wait unbounded: nothing ends it but a wake-up or an error. */
  lemma FarHeadSleepsForever(ss: seq<State>, acts: seq<Action>, n: nat, later: Nanos)
    requires IsRun(ss, acts) && n < |ss|
    requires var s := ss[n]; s.poller.Waiting? && s.poller.asked == -1 && !s.event && !SomeoneWillWake(s)
    requires var s := ss[n]; s.queue != [] && s.queue[0].uptime != NEVER
    ensures var s := ss[n];
            var delay := s.queue[0].uptime as int - s.poller.since as int;
            (s.poller.timeout == -1 <==> delay > LONGEST)
            && (delay > LONGEST ==> !TimedOut(s.poller.start, later, s.poller.timeout))
  {
    SleepEndsAtHead(ss, acts, n);
  }
}
