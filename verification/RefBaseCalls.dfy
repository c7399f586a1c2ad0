/**
 Whole calls in the runs of RefBase: from its first access to its return, what a
 call did decides its result, and which of the object's virtual functions it calls.
 */
module RefBaseCalls {
  import opened Chains
  import opened RefBase

  /** What one access of a thread may do. */
  datatype Deed =
    | Raise          // adds a unit to mStrong
    | RaiseFirst     // the first one, to the initial value
    | RaiseAnother   // one to a count that has others, or lost them all
    | DropBias       // takes the initial value off mStrong
    | LowerLast      // takes mStrong from 1 to 0
    | LowerLastWeak  // takes mWeak from 1 to 0
    | Touch          // changes mStrong
    | WinLive        // wins an exchange from a count that is positive and not initial
    | WinFresh       // wins an exchange from the initial value
    | Agree          // asks the object, which agrees to be revived
    | Decline        // asks the object, which does not
    | CallsFirst     // calls onFirstRef
    | CallsLast      // calls onLastStrongRef
    | CallsLastWeak  // calls onLastWeakRef
    | Ends           // ends the object
    | Gain           // leaves the client one more strong reference

  predicate IsExchange(pc: Pc) {
    pc.Promote? && (pc.try.Cas? || pc.try.CasFirst?)
  }

  predicate Raises(m: Memory, m': Memory) {
    m'.mStrong == m.mStrong + 1
  }

  /** Whether the access from `th` to `th'` with this `choice` does `d`. */
  predicate Does(m: Memory, th: Thread, choice: bool, m': Memory, th': Thread, d: Deed) {
    match d
    case Raise => Raises(m, m')
    case RaiseFirst => Raises(m, m') && m.mStrong == INITIAL_STRONG_VALUE
    case RaiseAnother => Raises(m, m') && m.mStrong != INITIAL_STRONG_VALUE && m.mStrong != 0
    case DropBias => m'.mStrong == m.mStrong - INITIAL_STRONG_VALUE
    case LowerLast => m.mStrong == 1 && m'.mStrong == 0
    case LowerLastWeak => m.mWeak == 1 && m'.mWeak == 0
    case Touch => m'.mStrong != m.mStrong
    case WinLive => IsExchange(th.pc) && Raises(m, m') && 0 < m.mStrong && m.mStrong != INITIAL_STRONG_VALUE
    case WinFresh => IsExchange(th.pc) && Raises(m, m') && m.mStrong == INITIAL_STRONG_VALUE
    case Agree => th.pc == Promote(AskObject) && choice
    case Decline => th.pc == Promote(AskObject) && !choice
    case CallsFirst => th.pc == IncStrong(CallFirstRef)
    case CallsLast => th.pc == DecStrong(CallLastStrong) || th.pc == Promote(RepeatLastStrong)
    case CallsLastWeak => th.pc == DecWeak(CallLastWeak)
    case Ends => th.pc.Destroy? && th.pc.dtor == EndObject
    case Gain => th'.strong == th.strong + 1
  }

  predicate StepDoes(s: State, a: Action, s': State, t: nat, d: Deed) {
    && a.Run? && a.t == t && t < |s.threads| && t < |s'.threads|
    && Does(s.mem, s.threads[t], a.choice, s'.mem, s'.threads[t], d)
  }

  /** One of the accesses of `t` in the steps from `n` to `m` did `d`. */
  ghost predicate Did(ss: seq<State>, acts: seq<Action>, t: nat, n: nat, m: nat, d: Deed)
    requires n <= m <= |acts| < |ss|
  {
    exists k :: n <= k < m && StepDoes(ss[k], acts[k], ss[k + 1], t, d)
  }

  /** Everything that they did. */
  ghost function Deeds(ss: seq<State>, acts: seq<Action>, t: nat, n: nat, m: nat): set<Deed>
    requires n <= m <= |acts| < |ss|
  {
    set d: Deed | Did(ss, acts, t, n, m, d)
  }

  function DoneBy(s: State, a: Action, s': State, t: nat): set<Deed> {
    set d: Deed | StepDoes(s, a, s', t, d)
  }

  lemma DeedsNext(ss: seq<State>, acts: seq<Action>, t: nat, n: nat, m: nat)
    requires n <= m < |acts| < |ss|
    ensures Deeds(ss, acts, t, n, m + 1) == Deeds(ss, acts, t, n, m) + DoneBy(ss[m], acts[m], ss[m + 1], t)
  {
  }

  // ---------------------------------------------------------------------------
  // How far a call is
  // ---------------------------------------------------------------------------

  /** Thread `t` makes one call in the steps from `n` to `m`, and has returned after them. */
  ghost predicate IsCall(ss: seq<State>, t: nat, n: nat, m: nat, start: Pc) {
    && n < m < |ss|
    && (forall k :: n <= k <= m ==> t < |ss[k].threads|)
    && ss[n].threads[t].pc == start
    && (forall k :: n <= k < m ==> ss[k].threads[t].pc != Idle)
    && ss[m].threads[t].pc == Idle
  }

  /** What decWeak does at the end of another call, or alone. */
  predicate WeakPhase(mode: Mode, pc: Pc, done: set<Deed>) {
    match pc
    case DecWeak(SubWeakUnit) =>
      LowerLastWeak !in done && CallsLastWeak !in done && (mode == WeakLifetime ==> Ends !in done)
    case DecWeak(decw) =>
      && LowerLastWeak in done && CallsLastWeak !in done && (mode == WeakLifetime ==> Ends !in done)
      && (decw == CallLastWeak ==> mode == WeakLifetime)
    case Destroy(_, FromDecWeak) =>
      mode == WeakLifetime && LowerLastWeak in done && CallsLastWeak in done && Ends !in done
    case Idle =>
      && (CallsLastWeak in done <==> mode == WeakLifetime && LowerLastWeak in done)
      && (mode == WeakLifetime ==> (Ends in done <==> LowerLastWeak in done))
    case _ => false
  }

  predicate IncStrongPhase(pc: Pc, done: set<Deed>) {
    match pc
    case IncStrong(AddWeakUnit) => done == {}
    case IncStrong(AddStrongUnit) => done == {}
    case IncStrong(SubtractBias) => done == {Raise, RaiseFirst, Touch}
    case IncStrong(CallFirstRef) => done == {Raise, RaiseFirst, Touch, DropBias}
    case Idle =>
      || done == {Raise, RaiseFirst, Touch, DropBias, CallsFirst, Gain}
      || done == {Raise, Touch, Gain} || done == {Raise, RaiseAnother, Touch, Gain}
    case _ => false
  }

  predicate DecStrongPhase(mode: Mode, pc: Pc, done: set<Deed>) {
    match pc
    case DecStrong(SubStrongUnit) => done == {}
    case DecStrong(CallLastStrong) => done == {LowerLast, Touch}
    case DecStrong(LoadFlags) => done == {LowerLast, Touch, CallsLast}
    case Destroy(_, FromDecStrong) => mode == StrongLifetime && done == {LowerLast, Touch, CallsLast}
    case _ =>
      && WeakPhase(mode, pc, done)
      && (LowerLast in done <==> CallsLast in done)
      && (mode == StrongLifetime ==> (Ends in done <==> LowerLast in done))
  }

  predicate PromotionPhase(mode: Mode, th: Thread, done: set<Deed>) {
    match th.pc
    case Promote(AddUnit) => mode == WeakLifetime && done == {Agree}
    case Promote(RepeatLastStrong) => mode == WeakLifetime && done == {Agree, Raise, RaiseAnother, Touch}
    case Promote(RemoveBias) =>
      done == {Raise, RaiseFirst, Touch} + if mode == WeakLifetime then {Agree} else {WinFresh}
    case Promote(_) => done == {}
    case Idle => if th.ok then PromotionWon(mode, done) else PromotionLost(mode, done) && WeakPhase(mode, th.pc, done)
    case _ => !th.ok && PromotionLost(mode, done) && WeakPhase(mode, th.pc, done)
  }

  predicate PromotionWon(mode: Mode, done: set<Deed>) {
    && Raise in done && Gain in done && Decline !in done && CallsFirst !in done
    && (if mode == WeakLifetime then (WinLive in done) != (Agree in done) && WinFresh !in done
        else (WinLive in done) != (WinFresh in done) && Agree !in done)
    && (RaiseFirst in done <==> DropBias in done)
    && (CallsLast in done <==> Agree in done && RaiseAnother in done)
  }

  predicate PromotionLost(mode: Mode, done: set<Deed>) {
    && Touch !in done && Raise !in done && Gain !in done && CallsFirst !in done && CallsLast !in done
    && WinLive !in done && WinFresh !in done && Agree !in done
    && (Decline in done <==> mode == WeakLifetime)
  }

  // ---------------------------------------------------------------------------
  // One access
  // ---------------------------------------------------------------------------

  function DeedsOf(m: Memory, th: Thread, choice: bool, m': Memory, th': Thread): set<Deed> {
    set d: Deed | Does(m, th, choice, m', th', d)
  }

  /** What a thread knows at its program counter, whatever the others do. */
  predicate Local(m: Memory, th: Thread) {
    match th.pc
    case Destroy(pc, caller) => DtorLocal(m, pc, caller)
    case DecWeak(pc) => DecWeakLocal(m, pc)
    case Promote(Cas(cur)) => cur > 0 && cur != INITIAL_STRONG_VALUE
    case Promote(CheckMode(cur)) => cur == INITIAL_STRONG_VALUE || cur <= 0
    case Promote(CasFirst(cur)) => m.mode == StrongLifetime && cur > 0
    case Promote(AskObject) => m.mode == WeakLifetime
    case _ => true
  }

  /** The count that an exchange compares, and the value it expects. */
  function Compared(m: Memory, pc: Pc): (int, int)
    requires IsExchange(pc) || (pc.Probe? && pc.probe.CasWeak?)
  {
    match pc
    case Probe(CasWeak(cur)) => (m.mWeak, cur)
    case Promote(Cas(cur)) => (m.mStrong, cur)
    case Promote(CasFirst(cur)) => (m.mStrong, cur)
    case _ => (0, 0)
  }

  /**
   A compare_exchange adds one exactly if the count is the one read before and it does not
   fail spuriously; otherwise the loop goes on with the count as it is, while that is positive.
   */
  lemma ExchangeIsExact(m: Memory, th: Thread, t: nat, choice: bool)
    requires IsExchange(th.pc) || (th.pc.Probe? && th.pc.probe.CasWeak?)
    ensures var (m', th') := Exec(m, th, t, choice);
      var ((count, cur), after) := (Compared(m, th.pc), if th.pc.Probe? then m'.mWeak else m'.mStrong);
      && (after != count <==> count == cur && !choice) && (after != count ==> after == cur + 1)
      && (after == count && count > 0 && (count != INITIAL_STRONG_VALUE || th.pc.Probe?) ==>
            (IsExchange(th'.pc) || th'.pc.Probe?) && Compared(m, th'.pc) == (count, count))
  {
  }

  lemma IncStrongGoesOn(m: Memory, th: Thread, t: nat, choice: bool, done: set<Deed>)
    requires Local(m, th) && th.pc.IncStrong? && IncStrongPhase(th.pc, done)
    ensures var (m', th') := Exec(m, th, t, choice);
            IncStrongPhase(th'.pc, done + DeedsOf(m, th, choice, m', th'))
  {
  }

  lemma WeakGoesOn(m: Memory, th: Thread, t: nat, choice: bool, done: set<Deed>)
    requires Local(m, th) && th.pc != Idle && WeakPhase(m.mode, th.pc, done)
    ensures var (m', th') := Exec(m, th, t, choice);
            WeakPhase(m.mode, th'.pc, done + DeedsOf(m, th, choice, m', th'))
  {
  }

  /** As WeakGoesOn, but for what else decStrong keeps until it returns. */
  lemma DecStrongEnds(m: Memory, th: Thread, t: nat, choice: bool, done: set<Deed>)
    requires Local(m, th) && th.pc.DecWeak? && DecStrongPhase(m.mode, th.pc, done)
    ensures var (m', th') := Exec(m, th, t, choice);
            DecStrongPhase(m.mode, th'.pc, done + DeedsOf(m, th, choice, m', th'))
  {
    WeakGoesOn(m, th, t, choice, done);
    var (m', th') := Exec(m, th, t, choice);
    var now := DeedsOf(m, th, choice, m', th');
    assert LowerLast !in now && CallsLast !in now && Ends !in now;
  }

  lemma DecStrongDestroys(m: Memory, th: Thread, t: nat, choice: bool, done: set<Deed>)
    requires Local(m, th) && th.pc.Destroy? && DecStrongPhase(m.mode, th.pc, done)
    ensures var (m', th') := Exec(m, th, t, choice);
            DecStrongPhase(m.mode, th'.pc, done + DeedsOf(m, th, choice, m', th'))
  {
    var (m', th') := Exec(m, th, t, choice);
    var now := DeedsOf(m, th, choice, m', th');
    assert now == if th.pc.dtor == EndObject then {Ends} else {};
    if th.pc.caller == FromDecWeak {
      WeakGoesOn(m, th, t, choice, done);
    }
  }

  lemma LoweringGoesOn(m: Memory, th: Thread, t: nat, choice: bool, done: set<Deed>)
    requires th.pc.DecStrong? && DecStrongPhase(m.mode, th.pc, done)
    ensures var (m', th') := Exec(m, th, t, choice);
            DecStrongPhase(m.mode, th'.pc, done + DeedsOf(m, th, choice, m', th'))
  {
    var (m', th') := Exec(m, th, t, choice);
    assert DeedsOf(m, th, choice, m', th') - {DropBias} ==
      match th.pc.dec
      case SubStrongUnit => if m.mStrong == 1 then {LowerLast, Touch} else {Touch}
      case CallLastStrong => {CallsLast}
      case LoadFlags => {};
  }

  lemma DecStrongGoesOn(m: Memory, th: Thread, t: nat, choice: bool, done: set<Deed>)
    requires Local(m, th) && th.pc != Idle && DecStrongPhase(m.mode, th.pc, done)
    ensures var (m', th') := Exec(m, th, t, choice);
            DecStrongPhase(m.mode, th'.pc, done + DeedsOf(m, th, choice, m', th'))
  {
    match th.pc
    case DecWeak(_) => DecStrongEnds(m, th, t, choice, done);
    case Destroy(_, _) => DecStrongDestroys(m, th, t, choice, done);
    case DecStrong(_) => LoweringGoesOn(m, th, t, choice, done);
    case _ =>
  }

  /** The accesses of attemptIncStrong that change no count but mWeak. */
  lemma ReadingGoesOn(m: Memory, th: Thread, t: nat, choice: bool)
    requires Local(m, th) && th.pc.Promote?
    requires th.pc.try.TakeWeakUnit? || th.pc.try.LoadStrong? || th.pc.try.CheckMode? || th.pc.try.AskObject?
    ensures var (m', th') := Exec(m, th, t, choice);
            PromotionPhase(m.mode, th', DeedsOf(m, th, choice, m', th'))
  {
    var (m', th') := Exec(m, th, t, choice);
    assert DeedsOf(m, th, choice, m', th') ==
      if th.pc.try != AskObject then {} else if choice then {Agree} else {Decline};
  }

  lemma CasGoesOn(m: Memory, th: Thread, t: nat, choice: bool)
    requires Local(m, th) && th.pc.Promote? && th.pc.try.Cas?
    ensures var (m', th') := Exec(m, th, t, choice);
            PromotionPhase(m.mode, th', DeedsOf(m, th, choice, m', th'))
  {
    var (m', th') := Exec(m, th, t, choice);
    assert DeedsOf(m, th, choice, m', th') ==
      if th'.pc == Idle then {Raise, RaiseAnother, Touch, WinLive, Gain} else {};
  }

  lemma CasFirstGoesOn(m: Memory, th: Thread, t: nat, choice: bool)
    requires Local(m, th) && th.pc.Promote? && th.pc.try.CasFirst?
    ensures var (m', th') := Exec(m, th, t, choice);
            PromotionPhase(m.mode, th', DeedsOf(m, th, choice, m', th'))
  {
    var (m', th') := Exec(m, th, t, choice);
    assert DeedsOf(m, th, choice, m', th') ==
      if th'.pc == Idle then {Raise, RaiseAnother, Touch, WinLive, Gain}
      else if th'.pc == Promote(RemoveBias) then {Raise, RaiseFirst, Touch, WinFresh} else {};
  }

  lemma AddingGoesOn(m: Memory, th: Thread, t: nat, choice: bool)
    requires th.pc == Promote(AddUnit) && m.mode == WeakLifetime
    ensures var (m', th') := Exec(m, th, t, choice);
            PromotionPhase(m.mode, th', {Agree} + DeedsOf(m, th, choice, m', th'))
  {
    var (m', th') := Exec(m, th, t, choice);
    var now := DeedsOf(m, th, choice, m', th');
    if m.mStrong == INITIAL_STRONG_VALUE {
      assert now == {Raise, RaiseFirst, Touch};
    } else if m.mStrong == 0 {
      assert now == {Raise, Touch, Gain};
    } else {
      assert now == {Raise, RaiseAnother, Touch};
    }
  }

  lemma RepeatingGoesOn(m: Memory, th: Thread, t: nat, choice: bool, done: set<Deed>)
    requires th.pc == Promote(RepeatLastStrong) && PromotionPhase(m.mode, th, done)
    ensures var (m', th') := Exec(m, th, t, choice);
            PromotionPhase(m.mode, th', done + DeedsOf(m, th, choice, m', th'))
  {
    var (m', th') := Exec(m, th, t, choice);
    assert DeedsOf(m, th, choice, m', th') == {CallsLast, Gain};
  }

  lemma RemovingGoesOn(m: Memory, th: Thread, t: nat, choice: bool, done: set<Deed>)
    requires th.pc == Promote(RemoveBias) && PromotionPhase(m.mode, th, done)
    ensures var (m', th') := Exec(m, th, t, choice);
            PromotionPhase(m.mode, th', done + DeedsOf(m, th, choice, m', th'))
  {
    var (m', th') := Exec(m, th, t, choice);
    assert DeedsOf(m, th, choice, m', th') == {DropBias, Touch, Gain};
  }

  lemma RefusalGoesOn(m: Memory, th: Thread, t: nat, choice: bool, done: set<Deed>)
    requires Local(m, th) && (th.pc.DecWeak? || th.pc.Destroy?) && PromotionPhase(m.mode, th, done)
    ensures var (m', th') := Exec(m, th, t, choice);
            PromotionPhase(m.mode, th', done + DeedsOf(m, th, choice, m', th'))
  {
    WeakGoesOn(m, th, t, choice, done);
    var (m', th') := Exec(m, th, t, choice);
    assert DeedsOf(m, th, choice, m', th') <= {LowerLastWeak, CallsLastWeak, Ends};
  }

  lemma PromotionGoesOn(m: Memory, th: Thread, t: nat, choice: bool, done: set<Deed>)
    requires Local(m, th) && th.pc != Idle && PromotionPhase(m.mode, th, done)
    ensures var (m', th') := Exec(m, th, t, choice);
            PromotionPhase(m.mode, th', done + DeedsOf(m, th, choice, m', th'))
  {
    var (m', th') := Exec(m, th, t, choice);
    var now := DeedsOf(m, th, choice, m', th');
    if !th.pc.Promote? {
      RefusalGoesOn(m, th, t, choice, done);
    } else {
      assert {} + now == now;
      match th.pc.try
      case Cas(_) => CasGoesOn(m, th, t, choice);
      case CasFirst(_) => CasFirstGoesOn(m, th, t, choice);
      case AddUnit => AddingGoesOn(m, th, t, choice);
      case RepeatLastStrong => RepeatingGoesOn(m, th, t, choice, done);
      case RemoveBias => RemovingGoesOn(m, th, t, choice, done);
      case _ => ReadingGoesOn(m, th, t, choice);
    }
  }

  // ---------------------------------------------------------------------------
  // Whole calls
  // ---------------------------------------------------------------------------

  /** What the invariant says about a thread; and nobody changes the lifetime of the object during a call. */
  lemma LocalDuringCall(ss: seq<State>, acts: seq<Action>, t: nat, k: nat)
    requires IsRun(ss, acts) && k < |acts| && t < |ss[k].threads|
    ensures Local(ss[k].mem, ss[k].threads[t])
    ensures ss[k].mem.raw.Private? && ss[k].mem.raw.owner != t ==> ss[k].threads[t].pc == Idle
    ensures Enabled(ss[k], acts[k]) && ss[k + 1] == Apply(ss[k], acts[k])
  {
    RunInv(ss, acts, k);
    assert Next(ss[k], acts[k], ss[k + 1]);
    assert LocalOk(ss[k].mem, Released(ss[k].mem, StrongTotal(ss[k].threads)), ss[k].threads[t], t);
  }

  lemma StepDuringCall(ss: seq<State>, acts: seq<Action>, t: nat, k: nat)
    requires IsRun(ss, acts) && k < |acts| && t < |ss[k].threads| && ss[k].threads[t].pc != Idle
    ensures t < |ss[k + 1].threads| && ss[k + 1].mem.mode == ss[k].mem.mode && Local(ss[k].mem, ss[k].threads[t])
    ensures if acts[k].Run? && acts[k].t == t then
              (ss[k + 1].mem, ss[k + 1].threads[t]) == Exec(ss[k].mem, ss[k].threads[t], t, acts[k].choice)
            else ss[k + 1].threads[t].pc == ss[k].threads[t].pc && ss[k + 1].threads[t].ok == ss[k].threads[t].ok
  {
    LocalDuringCall(ss, acts, t, k);
  }

  /** What `t` did in a step of its own, or nothing. */
  lemma DeedsGrow(ss: seq<State>, acts: seq<Action>, t: nat, n: nat, k: nat)
    requires n <= k < |acts| < |ss| && t < |ss[k].threads| && t < |ss[k + 1].threads|
    ensures Deeds(ss, acts, t, n, k + 1) ==
      if acts[k].Run? && acts[k].t == t then
        Deeds(ss, acts, t, n, k)
        + DeedsOf(ss[k].mem, ss[k].threads[t], acts[k].choice, ss[k + 1].mem, ss[k + 1].threads[t])
      else Deeds(ss, acts, t, n, k)
  {
    DeedsNext(ss, acts, t, n, k);
    var now := DoneBy(ss[k], acts[k], ss[k + 1], t);
    if acts[k].Run? && acts[k].t == t {
      assert now == DeedsOf(ss[k].mem, ss[k].threads[t], acts[k].choice, ss[k + 1].mem, ss[k + 1].threads[t]);
    } else {
      assert now == {};
    }
  }

  ghost predicate PromotionAt(ss: seq<State>, acts: seq<Action>, t: nat, n: nat, k: int) {
    && n <= k <= |acts| < |ss| && t < |ss[k].threads|
    && PromotionPhase(ss[k].mem.mode, ss[k].threads[t], Deeds(ss, acts, t, n, k))
  }

  lemma PromotionStep(ss: seq<State>, acts: seq<Action>, t: nat, n: nat, k: nat)
    requires IsRun(ss, acts) && k < |acts| && PromotionAt(ss, acts, t, n, k) && ss[k].threads[t].pc != Idle
    ensures PromotionAt(ss, acts, t, n, k + 1)
  {
    StepDuringCall(ss, acts, t, k);
    DeedsGrow(ss, acts, t, n, k);
    if acts[k].Run? && acts[k].t == t {
      PromotionGoesOn(ss[k].mem, ss[k].threads[t], t, acts[k].choice, Deeds(ss, acts, t, n, k));
    }
  }

  lemma PromotionAlong(ss: seq<State>, acts: seq<Action>, t: nat, n: nat, m: nat, j: nat)
    requires IsRun(ss, acts) && IsCall(ss, t, n, m, Promote(TakeWeakUnit)) && n <= j <= m
    ensures PromotionAt(ss, acts, t, n, j)
  {
    assert Deeds(ss, acts, t, n, n) == {};
    forall k | n <= k < j && PromotionAt(ss, acts, t, n, k) ensures PromotionAt(ss, acts, t, n, k + 1) {
      PromotionStep(ss, acts, t, n, k);
    }
    Chain(k => PromotionAt(ss, acts, t, n, k), n, j);
  }

  ghost predicate IncStrongAt(ss: seq<State>, acts: seq<Action>, t: nat, n: nat, k: int) {
    && n <= k <= |acts| < |ss| && t < |ss[k].threads|
    && IncStrongPhase(ss[k].threads[t].pc, Deeds(ss, acts, t, n, k))
  }

  lemma IncStrongStep(ss: seq<State>, acts: seq<Action>, t: nat, n: nat, k: nat)
    requires IsRun(ss, acts) && k < |acts| && IncStrongAt(ss, acts, t, n, k) && ss[k].threads[t].pc != Idle
    ensures IncStrongAt(ss, acts, t, n, k + 1)
  {
    StepDuringCall(ss, acts, t, k);
    DeedsGrow(ss, acts, t, n, k);
    if acts[k].Run? && acts[k].t == t {
      IncStrongGoesOn(ss[k].mem, ss[k].threads[t], t, acts[k].choice, Deeds(ss, acts, t, n, k));
    }
  }

  lemma IncStrongAlong(ss: seq<State>, acts: seq<Action>, t: nat, n: nat, m: nat, j: nat)
    requires IsRun(ss, acts) && IsCall(ss, t, n, m, IncStrong(AddWeakUnit)) && n <= j <= m
    ensures IncStrongAt(ss, acts, t, n, j)
  {
    assert Deeds(ss, acts, t, n, n) == {};
    forall k | n <= k < j && IncStrongAt(ss, acts, t, n, k) ensures IncStrongAt(ss, acts, t, n, k + 1) {
      IncStrongStep(ss, acts, t, n, k);
    }
    Chain(k => IncStrongAt(ss, acts, t, n, k), n, j);
  }

  ghost predicate DecStrongAt(ss: seq<State>, acts: seq<Action>, t: nat, n: nat, k: int) {
    && n <= k <= |acts| < |ss| && t < |ss[k].threads|
    && DecStrongPhase(ss[k].mem.mode, ss[k].threads[t].pc, Deeds(ss, acts, t, n, k))
  }

  lemma DecStrongStep(ss: seq<State>, acts: seq<Action>, t: nat, n: nat, k: nat)
    requires IsRun(ss, acts) && k < |acts| && DecStrongAt(ss, acts, t, n, k) && ss[k].threads[t].pc != Idle
    ensures DecStrongAt(ss, acts, t, n, k + 1)
  {
    StepDuringCall(ss, acts, t, k);
    DeedsGrow(ss, acts, t, n, k);
    if acts[k].Run? && acts[k].t == t {
      DecStrongGoesOn(ss[k].mem, ss[k].threads[t], t, acts[k].choice, Deeds(ss, acts, t, n, k));
    }
  }

  lemma DecStrongAlong(ss: seq<State>, acts: seq<Action>, t: nat, n: nat, m: nat, j: nat)
    requires IsRun(ss, acts) && IsCall(ss, t, n, m, DecStrong(SubStrongUnit)) && n <= j <= m
    ensures DecStrongAt(ss, acts, t, n, j)
  {
    assert Deeds(ss, acts, t, n, n) == {};
    forall k | n <= k < j && DecStrongAt(ss, acts, t, n, k) ensures DecStrongAt(ss, acts, t, n, k + 1) {
      DecStrongStep(ss, acts, t, n, k);
    }
    Chain(k => DecStrongAt(ss, acts, t, n, k), n, j);
  }

  ghost predicate DecWeakAt(ss: seq<State>, acts: seq<Action>, t: nat, n: nat, k: int) {
    && n <= k <= |acts| < |ss| && t < |ss[k].threads|
    && WeakPhase(ss[k].mem.mode, ss[k].threads[t].pc, Deeds(ss, acts, t, n, k))
  }

  lemma DecWeakStep(ss: seq<State>, acts: seq<Action>, t: nat, n: nat, k: nat)
    requires IsRun(ss, acts) && k < |acts| && DecWeakAt(ss, acts, t, n, k) && ss[k].threads[t].pc != Idle
    ensures DecWeakAt(ss, acts, t, n, k + 1)
  {
    StepDuringCall(ss, acts, t, k);
    DeedsGrow(ss, acts, t, n, k);
    if acts[k].Run? && acts[k].t == t {
      WeakGoesOn(ss[k].mem, ss[k].threads[t], t, acts[k].choice, Deeds(ss, acts, t, n, k));
    }
  }

  lemma DecWeakAlong(ss: seq<State>, acts: seq<Action>, t: nat, n: nat, m: nat, j: nat)
    requires IsRun(ss, acts) && IsCall(ss, t, n, m, DecWeak(SubWeakUnit)) && n <= j <= m
    ensures DecWeakAt(ss, acts, t, n, j)
  {
    assert Deeds(ss, acts, t, n, n) == {};
    forall k | n <= k < j && DecWeakAt(ss, acts, t, n, k) ensures DecWeakAt(ss, acts, t, n, k + 1) {
      DecWeakStep(ss, acts, t, n, k);
    }
    Chain(k => DecWeakAt(ss, acts, t, n, k), n, j);
  }

  /**
   attemptIncStrong, in any run, from its first access to its return. It returns true
   exactly if it won an exchange from a count that others kept positive or, for an object
   of strong lifetime, from the initial one or, for one of weak lifetime, the object agreed
   when asked; and exactly then it added a strong reference. If it returns false it never
   changed mStrong, and the object of weak lifetime had declined. It never calls
   onFirstRef; it calls onLastStrongRef exactly if, after the object agreed, the count had
   others already.
   */
  lemma PromotionCall(ss: seq<State>, acts: seq<Action>, t: nat, n: nat, m: nat)
    requires IsRun(ss, acts) && IsCall(ss, t, n, m, Promote(TakeWeakUnit))
    ensures var done, ok, weak := Deeds(ss, acts, t, n, m), ss[m].threads[t].ok, ss[m].mem.mode == WeakLifetime;
      && (weak ==> (ok <==> WinLive in done || Agree in done))
      && (!weak ==> (ok <==> WinLive in done || WinFresh in done))
      && (weak ==> (!ok <==> Decline in done)) && (!weak ==> Agree !in done && Decline !in done)
      && (ok <==> Raise in done) && (ok <==> Gain in done) && (ok <==> Touch in done)
      && (RaiseFirst in done <==> DropBias in done) && CallsFirst !in done
      && (CallsLast in done <==> Agree in done && RaiseAnother in done)
  {
    PromotionAlong(ss, acts, t, n, m, m);
  }

  lemma OneReferenceAtMost(m: Memory, th: Thread, t: nat, choice: bool)
    requires th.pc.Promote? || th.pc.DecWeak? || th.pc.Destroy?
    ensures th.strong <= Exec(m, th, t, choice).1.strong <= th.strong + 1
  {
  }

  lemma AccessAddsOne(ss: seq<State>, acts: seq<Action>, t: nat, n: nat, m: nat, j: nat)
    requires IsRun(ss, acts) && IsCall(ss, t, n, m, Promote(TakeWeakUnit)) && m <= |acts|
    requires n <= j < m && acts[j].Run? && acts[j].t == t
    ensures t < |ss[j].threads| && t < |ss[j + 1].threads|
    ensures ss[j].threads[t].strong <= ss[j + 1].threads[t].strong <= ss[j].threads[t].strong + 1
  {
    PromotionAlong(ss, acts, t, n, m, j);
    StepDuringCall(ss, acts, t, j);
    OneReferenceAtMost(ss[j].mem, ss[j].threads[t], t, acts[j].choice);
  }

  lemma NothingChanged(s: State, a: Action, s': State, t: nat)
    requires a.Run? && a.t == t && t < |s.threads| && t < |s'.threads|
    requires s.threads[t].strong <= s'.threads[t].strong <= s.threads[t].strong + 1
    requires !StepDoes(s, a, s', t, Touch) && !StepDoes(s, a, s', t, Gain)
    ensures s'.mem.mStrong == s.mem.mStrong && s'.threads[t].strong == s.threads[t].strong
  {
  }

  /** What a call did not do, none of its accesses did. */
  lemma NotDone(ss: seq<State>, acts: seq<Action>, t: nat, n: nat, m: nat, j: nat, d: Deed)
    requires n <= j < m <= |acts| < |ss| && d !in Deeds(ss, acts, t, n, m)
    ensures !StepDoes(ss[j], acts[j], ss[j + 1], t, d)
  {
    assert !Did(ss, acts, t, n, m, d);
  }

  /** A refused attempt changes neither count of strong references, the object's or the client's. */
  lemma RefusedAccess(ss: seq<State>, acts: seq<Action>, t: nat, n: nat, m: nat, j: nat)
    requires IsRun(ss, acts) && IsCall(ss, t, n, m, Promote(TakeWeakUnit)) && m <= |acts|
    requires n <= j < m && acts[j].Run? && acts[j].t == t
    requires Touch !in Deeds(ss, acts, t, n, m) && Gain !in Deeds(ss, acts, t, n, m)
    ensures ss[j + 1].mem.mStrong == ss[j].mem.mStrong
    ensures t < |ss[j + 1].threads| && ss[j + 1].threads[t].strong == ss[j].threads[t].strong
  {
    AccessAddsOne(ss, acts, t, n, m, j);
    NotDone(ss, acts, t, n, m, j, Touch);
    NotDone(ss, acts, t, n, m, j, Gain);
    NothingChanged(ss[j], acts[j], ss[j + 1], t);
  }

  lemma DeclineCounts(ss: seq<State>, acts: seq<Action>, t: nat, n: nat, m: nat, k: nat)
    requires IsRun(ss, acts) && IsCall(ss, t, n, m, Promote(TakeWeakUnit)) && n <= k < m <= |acts|
    requires acts[k] == Run(t, false) && ss[k].threads[t].pc == Promote(AskObject)
    ensures Decline in Deeds(ss, acts, t, n, m)
  {
    StepDuringCall(ss, acts, t, k);
    assert StepDoes(ss[k], acts[k], ss[k + 1], t, Decline);
    assert Did(ss, acts, t, n, m, Decline);
  }

  /**
   The object is asked and answers false: the attempt fails, whatever others do meanwhile,
   and none of its accesses changes mStrong or the client's strong references.
   */
  lemma DeclinedPromotion(ss: seq<State>, acts: seq<Action>, t: nat, n: nat, m: nat, k: nat, j: nat)
    requires IsRun(ss, acts) && IsCall(ss, t, n, m, Promote(TakeWeakUnit)) && n <= k < m <= |acts|
    requires acts[k] == Run(t, false) && ss[k].threads[t].pc == Promote(AskObject)
    ensures !ss[m].threads[t].ok
    ensures n <= j < m && acts[j].Run? && acts[j].t == t ==>
      ss[j + 1].mem.mStrong == ss[j].mem.mStrong && ss[j + 1].threads[t].strong == ss[j].threads[t].strong
  {
    PromotionAlong(ss, acts, t, n, m, m);
    DeclineCounts(ss, acts, t, n, m, k);
    if n <= j < m && acts[j].Run? && acts[j].t == t {
      RefusedAccess(ss, acts, t, n, m, j);
    }
  }

  lemma IncStrongReturned(done: set<Deed>)
    requires IncStrongPhase(Idle, done)
    ensures Raise in done && Gain in done
    ensures (CallsFirst in done <==> RaiseFirst in done) && (DropBias in done <==> RaiseFirst in done)
  {
  }

  /** incStrong adds a strong reference, and calls onFirstRef and removes the bias exactly if it added the first. */
  lemma IncStrongCalls(ss: seq<State>, acts: seq<Action>, t: nat, n: nat, m: nat)
    requires IsRun(ss, acts) && IsCall(ss, t, n, m, IncStrong(AddWeakUnit))
    ensures var done := Deeds(ss, acts, t, n, m);
      && Raise in done && Gain in done
      && (CallsFirst in done <==> RaiseFirst in done) && (DropBias in done <==> RaiseFirst in done)
  {
    IncStrongAlong(ss, acts, t, n, m, m);
    IncStrongReturned(Deeds(ss, acts, t, n, m));
  }

  /**
   decStrong calls onLastStrongRef exactly if it took the count to 0, and then it ends the
   object, in the strong lifetime; in the weak lifetime it calls onLastWeakRef and ends the
   object exactly if it took the weak count to 0.
   */
  lemma DecStrongCalls(ss: seq<State>, acts: seq<Action>, t: nat, n: nat, m: nat)
    requires IsRun(ss, acts) && IsCall(ss, t, n, m, DecStrong(SubStrongUnit))
    ensures var done, weak := Deeds(ss, acts, t, n, m), ss[m].mem.mode == WeakLifetime;
      && (CallsLast in done <==> LowerLast in done)
      && (Ends in done <==> if weak then LowerLastWeak in done else LowerLast in done)
      && (CallsLastWeak in done <==> weak && LowerLastWeak in done)
  {
    DecStrongAlong(ss, acts, t, n, m, m);
  }

  /** decWeak calls onLastWeakRef, and ends the object, exactly if it took the weak count to 0 in the weak lifetime. */
  lemma DecWeakCalls(ss: seq<State>, acts: seq<Action>, t: nat, n: nat, m: nat)
    requires IsRun(ss, acts) && IsCall(ss, t, n, m, DecWeak(SubWeakUnit))
    ensures var done, weak := Deeds(ss, acts, t, n, m), ss[m].mem.mode == WeakLifetime;
      && (CallsLastWeak in done <==> weak && LowerLastWeak in done)
      && (weak ==> (Ends in done <==> LowerLastWeak in done))
  {
    DecWeakAlong(ss, acts, t, n, m, m);
  }
}
