/**
 Two runs of the looper: one in which the poll thread sleeps without end on a message
 that is too far away, and one in which it takes a message while three are queued.
 */
module LooperWitness {
  import opened Timers
  import opened Looper

  ghost predicate Reachable(s: State) {
    exists ss, acts :: IsRunTo(ss, acts, s)
  }

  ghost predicate IsRunTo(ss: seq<State>, acts: seq<Action>, s: State) {
    IsRun(ss, acts) && ss[|acts|] == s
  }

  lemma InitReachable(s: State)
    requires Init(s)
    ensures Reachable(s)
  {
    assert IsRunTo([s], [], s);
  }

  lemma StepReachable(s: State, a: Action)
    requires Reachable(s) && Enabled(s, a)
    ensures Reachable(Apply(s, a))
  {
    var ss, acts :| IsRunTo(ss, acts, s);
    var ss', acts' := ss + [Apply(s, a)], acts + [a];
    forall i | 0 <= i < |acts'| ensures Next(ss'[i], acts'[i], ss'[i + 1]) {
      if i < |acts| {
        assert Next(ss[i], acts[i], ss[i + 1]);
      }
    }
    assert IsRunTo(ss', acts', Apply(s, a));
  }

  /** INT_MAX milliseconds, one more than has a timeout. */
  const FAR: Nanos := 2_147_483_647_000_000

  /** One message is queued, and its only sender has returned. */
  predicate Quiet(s: State, event: bool, next: Nanos, poller: Poller) {
    && s.queue == [Envelope(FAR, 0, 0)] && s.senders == [Outside] && s.lock == Free && !s.sending && s.now == 0
    && s.event == event && s.next == next && s.poller == poller
  }

  /** The only sender sends a message for that time, and wakes. */
  lemma SentFar() returns (s: State)
    ensures Reachable(s) && Quiet(s, true, NEVER, Between)
  {
    s := State([], false, NEVER, false, Free, 0, Between, [Outside], [], []);
    InitReachable(s);
    StepReachable(s, Send(0, FAR, 0));
    s := Apply(s, Send(0, FAR, 0));
    StepReachable(s, SenderStep(0));
    s := Apply(s, SenderStep(0));
    StepReachable(s, SenderStep(0));
    s := Apply(s, SenderStep(0));
    assert s.queue == [Envelope(FAR, 0, 0)];
    StepReachable(s, SenderStep(0));
    s := Apply(s, SenderStep(0));
    StepReachable(s, SenderStep(0));
    s := Apply(s, SenderStep(0));
  }

  /** The poll thread handles the wake-up and caches the uptime. */
  lemma Cached() returns (s: State)
    ensures Reachable(s) && Quiet(s, false, FAR, Between)
  {
    s := SentFar();
    StepReachable(s, Poll(-1));
    s := Apply(s, Poll(-1));
    StepReachable(s, EnterWait);
    s := Apply(s, EnterWait);
    StepReachable(s, LeaveWait(true, false));
    s := Apply(s, LeaveWait(true, false));
    StepReachable(s, PollerStep);
    s := Apply(s, PollerStep);
    StepReachable(s, PollerStep);
    s := Apply(s, PollerStep);
    StepReachable(s, PollerStep);
    s := Apply(s, PollerStep);
  }

  /** It then sleeps without a timeout, though a message with an uptime is queued, and nothing will wake it. */
  lemma SleepsOnFarHead() returns (s: State)
    ensures Reachable(s) && s.poller.Waiting? && s.poller.timeout == -1 && !s.event && !SomeoneWillWake(s)
    ensures s.queue != [] && s.queue[0].uptime != NEVER
    ensures forall later :: !TimedOut(s.poller.start, later, s.poller.timeout)
  {
    s := Cached();
    TimeoutCoversDelay(0, FAR);
    StepReachable(s, Poll(-1));
    s := Apply(s, Poll(-1));
    StepReachable(s, EnterWait);
    s := Apply(s, EnterWait);
  }

  /** The poll thread has not begun, and the sender has sent the messages of `queue`. */
  predicate Sending(s: State, queue: seq<Envelope>) {
    && s.queue == queue && |s.sent| == |queue| && s.senders == [Outside] && s.lock == Free && !s.sending && s.now == 0
    && s.event && s.next == NEVER && s.poller == Between
  }

  lemma OneSent() returns (s: State)
    ensures Reachable(s) && Sending(s, [Envelope(0, 0, 0)])
  {
    s := State([], false, NEVER, false, Free, 0, Between, [Outside], [], []);
    InitReachable(s);
    StepReachable(s, Send(0, 0, 0));
    s := Apply(s, Send(0, 0, 0));
    StepReachable(s, SenderStep(0));
    s := Apply(s, SenderStep(0));
    StepReachable(s, SenderStep(0));
    s := Apply(s, SenderStep(0));
    assert s.queue == [Envelope(0, 0, 0)];
    StepReachable(s, SenderStep(0));
    s := Apply(s, SenderStep(0));
    StepReachable(s, SenderStep(0));
    s := Apply(s, SenderStep(0));
  }

  /** Another message due at once goes behind those that are queued. */
  lemma NextSent(s0: State, queue: seq<Envelope>) returns (s: State)
    requires Reachable(s0) && Sending(s0, queue) && queue != [] && InsertIndex(queue, 0) == |queue|
    ensures Reachable(s) && Sending(s, queue + [Envelope(0, 0, |queue|)])
  {
    s := s0;
    StepReachable(s, Send(0, 0, 0));
    s := Apply(s, Send(0, 0, 0));
    StepReachable(s, SenderStep(0));
    s := Apply(s, SenderStep(0));
    StepReachable(s, SenderStep(0));
    s := Apply(s, SenderStep(0));
    assert s.queue == queue + [Envelope(0, 0, |queue|)];
    StepReachable(s, SenderStep(0));
    s := Apply(s, SenderStep(0));
  }

  /** Three messages sent before the poll thread runs: it takes the first of three. */
  lemma TakesFromThree() returns (s: State)
    ensures Reachable(s) && |s.queue| == 3 && Enabled(s, PollerStep) && Takes(s, PollerStep)
  {
    s := OneSent();
    var queue := [Envelope(0, 0, 0)];
    s := NextSent(s, queue);
    queue := queue + [Envelope(0, 0, 1)];
    assert InsertIndex(queue, 0) == 2;
    s := NextSent(s, queue);
    StepReachable(s, Poll(-1));
    s := Apply(s, Poll(-1));
    StepReachable(s, EnterWait);
    s := Apply(s, EnterWait);
    StepReachable(s, LeaveWait(true, false));
    s := Apply(s, LeaveWait(true, false));
    StepReachable(s, PollerStep);
    s := Apply(s, PollerStep);
    StepReachable(s, PollerStep);
    s := Apply(s, PollerStep);
  }
}
