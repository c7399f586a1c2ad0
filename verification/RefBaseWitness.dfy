/** A run of RefBase whose object is only ever weakly referenced, and leaks. */
module RefBaseWitness {
  import opened RefBase
  import opened Sums

  ghost predicate Reachable(s: State) {
    exists ss, acts :: IsRunTo(ss, acts, s)
  }

  ghost predicate IsRunTo(ss: seq<State>, acts: seq<Action>, s: State) {
    IsRun(ss, acts) && ss[|acts|] == s
  }

  lemma StepReachable(s: State, a: Action)
    requires Reachable(s) && Enabled(s, a) && Bounded(Apply(s, a))
    ensures Reachable(Apply(s, a))
  {
    var ss, acts :| IsRunTo(ss, acts, s);
    var ss', acts' := ss + [Apply(s, a)], acts + [a];
    forall i | 0 <= i < |acts'| ensures Next(ss'[i], acts'[i], ss'[i + 1]) {
      if i < |acts| {
        assert Next(ss[i], acts[i], ss[i + 1]);
      }
    }
    assert IsRunTo(ss', acts', Apply(s, a));
  }

  lemma OneThreadIsBounded(s: State)
    requires |s.threads| == 1 && StrongUnits(s.threads[0]) <= 1 && WeakUnits(s.threads[0]) <= 2
    ensures Bounded(s)
  {
    var ss := seq(1, i requires 0 <= i < 1 => StrongUnits(s.threads[i]));
    var ws := seq(1, i requires 0 <= i < 1 => WeakUnits(s.threads[i]));
    assert ss == [StrongUnits(s.threads[0])] && ws == [WeakUnits(s.threads[0])];
    assert Sum(ss[1..]) == 0 && Sum(ws[1..]) == 0;
  }

  lemma Go(s: State, a: Action) returns (s': State)
    requires Reachable(s) && Enabled(s, a) && |Apply(s, a).threads| == 1
    requires StrongUnits(Apply(s, a).threads[0]) <= 1 && WeakUnits(Apply(s, a).threads[0]) <= 2
    ensures s' == Apply(s, a) && Reachable(s')
  {
    OneThreadIsBounded(Apply(s, a));
    StepReachable(s, a);
    s' := Apply(s, a);
  }

  /** The only thread is at `pc` with `weak` references; there never was a strong one. */
  predicate At(s: State, mWeak: int, raw: Raw, impl: Stage, pc: Pc, weak: nat) {
    && s.threads == [Thread(pc, 0, weak, false)]
    && s.mem.mStrong == INITIAL_STRONG_VALUE && s.mem.mWeak == mWeak && s.mem.mode == StrongLifetime && s.mem.raw == raw
    && s.mem.obj == Pending && s.mem.impl == impl
  }

  /** The creator makes a weak reference through the raw pointer. */
  lemma Referenced() returns (s: State)
    ensures Reachable(s) && At(s, 1, Private(0), Pending, Idle, 1)
  {
    var m := Memory(INITIAL_STRONG_VALUE, 0, StrongLifetime, Private(0), Pending, Pending, Pending, Pending);
    s := State(m, [Thread(Idle, 0, 0, false)]);
    OneThreadIsBounded(s);
    assert IsRunTo([s], [], s);
    s := Go(s, Client(0, IncWeakCall(true)));
    s := Go(s, Run(0, false));
  }

  /** It gives up the pointer, and then the reference. */
  lemma GivenUp() returns (s: State)
    ensures Reachable(s) && At(s, 1, NoRaw, Pending, DecWeak(SubWeakUnit), 0)
  {
    s := Referenced();
    s := Go(s, Client(0, GiveUpRaw));
    s := Go(s, Client(0, DecWeakCall));
  }

  lemma Subtracted() returns (s: State)
    ensures Reachable(s) && At(s, 0, NoRaw, Taken(0), DecWeak(CheckFlags), 0)
  {
    s := GivenUp();
    s := Go(s, Run(0, false));
  }

  /** Nothing refers to the object any more, every call has returned, and neither allocation was freed. */
  lemma LeakHappens() returns (s: State)
    ensures Reachable(s) && s.mem.raw == NoRaw && s.threads == [Thread(Idle, 0, 0, false)]
    ensures s.mem.obj != Done && s.mem.impl != Done
  {
    s := Subtracted();
    s := Go(s, Run(0, false));
    s := Go(s, Run(0, false));
  }
}
