/**
 Strong and weak reference counting of one RefBase object, as a machine whose
 steps are the atomic accesses of RefBase.cpp.

 Any number of threads run calls on the object.  Each thread has a program
 counter (`Pc`) naming the access it performs next, and the references its
 client code holds.  Every reference, and every call in flight, owns units of
 the two counters; the invariant equates the counters with the units.
 */
module RefBase {
  import opened Sums

  const INITIAL_STRONG_VALUE: int := 0x1000_0000
  const INT32_MAX: int := 0x7FFF_FFFF

  /** `mFlags & OBJECT_LIFETIME_MASK`. */
  datatype Mode = StrongLifetime | WeakLifetime

  /** The call on whose behalf the destructor runs. */
  datatype Caller = FromDecStrong | FromDecWeak

  // The next atomic access of each call; `cur` is the local variable `curCount`.

  datatype IncStrongPc = AddWeakUnit | AddStrongUnit | SubtractBias | CallFirstRef
  datatype DecStrongPc = SubStrongUnit | CallLastStrong | LoadFlags
  datatype DtorPc = ReadFlags | ReadWeak | FreeImpl | ReadStrong | EndObject
  datatype DecWeakPc = SubWeakUnit | CheckFlags | CheckStrong | DeleteImpl | CallLastWeak
  datatype PromotePc =
    | TakeWeakUnit | LoadStrong | Cas(cur: int) | CheckMode(cur: int) | CasFirst(cur: int)
    | AskObject | AddUnit | RepeatLastStrong | RemoveBias
  datatype ProbePc = LoadWeak | CasWeak(cur: int)

  datatype Pc =
    | Idle
    | IncStrong(inc: IncStrongPc)
    | DecStrong(dec: DecStrongPc)
    | Destroy(dtor: DtorPc, caller: Caller)
    | IncWeak(viaObject: bool)      // on the impl, or (creatWeak) through the object
    | DecWeak(decw: DecWeakPc)
    | Promote(try: PromotePc)       // attemptIncStrong
    | Probe(probe: ProbePc)         // attemptIncWeak

  /** A thread: where it is, the references its client holds, and its last attempt's result. */
  datatype Thread = Thread(pc: Pc, strong: nat, weak: nat, ok: bool)

  /** Who may still use the raw pointer returned by `new`: its creator, until it gives it up. */
  datatype Raw = NoRaw | Private(owner: nat) | Published(owner: nat)

  /** A one-time event: not begun, the duty of one thread, or over. */
  datatype Stage = Pending | Taken(thread: nat) | Done

  /**
   The memory all threads share.  The stages are history: no step reads them.
   */
  datatype Memory = Memory(
    mStrong: int, mWeak: int, mode: Mode, raw: Raw,
    bias: Stage,    // subtracting the bias
    first: Stage,   // calling onFirstRef
    obj: Stage,     // destroying the object
    impl: Stage)    // freeing the weakref_impl

  datatype State = State(mem: Memory, threads: seq<Thread>)

  // ---------------------------------------------------------------------------
  // Steps
  // ---------------------------------------------------------------------------

  predicate OwnsRaw(raw: Raw, t: nat) {
    raw != NoRaw && raw.owner == t
  }

  /** A successful strong acquisition by its owner ends the use of the raw pointer. */
  function DropRaw(raw: Raw, t: nat): Raw {
    if OwnsRaw(raw, t) then NoRaw else raw
  }

  /** incStrong, lines 31-49. */
  function ExecIncStrong(m: Memory, th: Thread, t: nat, pc: IncStrongPc): (Memory, Thread) {
    match pc
    case AddWeakUnit => (m.(mWeak := m.mWeak + 1), th.(pc := IncStrong(AddStrongUnit)))
    case AddStrongUnit =>
      var m' := m.(mStrong := m.mStrong + 1, raw := DropRaw(m.raw, t));
      if m.mStrong != INITIAL_STRONG_VALUE then (m', th.(pc := Idle, strong := th.strong + 1))
      else (m'.(bias := Taken(t), first := Taken(t)), th.(pc := IncStrong(SubtractBias)))
    case SubtractBias =>
      (m.(mStrong := m.mStrong - INITIAL_STRONG_VALUE, bias := Done), th.(pc := IncStrong(CallFirstRef)))
    case CallFirstRef => (m.(first := Done), th.(pc := Idle, strong := th.strong + 1))
  }

  /** decStrong, lines 51-68. */
  function ExecDecStrong(m: Memory, th: Thread, t: nat, pc: DecStrongPc): (Memory, Thread) {
    match pc
    case SubStrongUnit =>
      var m' := m.(mStrong := m.mStrong - 1);
      if m.mStrong != 1 then (m', th.(pc := DecWeak(SubWeakUnit)))
      else (if m.mode == StrongLifetime then m'.(obj := Taken(t)) else m', th.(pc := DecStrong(CallLastStrong)))
    case CallLastStrong => (m, th.(pc := DecStrong(LoadFlags)))
    case LoadFlags =>
      (m, th.(pc := if m.mode == StrongLifetime then Destroy(ReadFlags, FromDecStrong) else DecWeak(SubWeakUnit)))
  }

  /** The destructor, lines 78-92. */
  function ExecDtor(m: Memory, th: Thread, pc: DtorPc, caller: Caller): (Memory, Thread) {
    match pc
    case ReadFlags => (m, th.(pc := Destroy(if m.mode == WeakLifetime then ReadWeak else ReadStrong, caller)))
    case ReadWeak => (m, th.(pc := Destroy(if m.mWeak == 0 then FreeImpl else EndObject, caller)))
    case FreeImpl => (m.(impl := Done), th.(pc := Destroy(EndObject, caller)))
    case ReadStrong => (m, th.(pc := Destroy(EndObject, caller)))
    case EndObject =>
      (m.(obj := Done), th.(pc := if caller == FromDecStrong then DecWeak(SubWeakUnit) else Idle))
  }

  /** decWeak, lines 128-158. */
  function ExecDecWeak(m: Memory, th: Thread, t: nat, pc: DecWeakPc): (Memory, Thread) {
    match pc
    case SubWeakUnit =>
      var m' := m.(mWeak := m.mWeak - 1);
      if m.mWeak != 1 then (m', th.(pc := Idle))
      else (m'.(impl := Taken(t), obj := if m.mode == WeakLifetime then Taken(t) else m.obj),
            th.(pc := DecWeak(CheckFlags)))
    case CheckFlags =>
      (m, th.(pc := DecWeak(if m.mode == StrongLifetime then CheckStrong else CallLastWeak)))
    case CheckStrong =>
      if m.mStrong == INITIAL_STRONG_VALUE then (m.(impl := Pending), th.(pc := Idle))
      else (m, th.(pc := DecWeak(DeleteImpl)))
    case DeleteImpl => (m.(impl := Done), th.(pc := Idle))
    case CallLastWeak => (m, th.(pc := Destroy(ReadFlags, FromDecWeak)))
  }

  /** The test at the head of the first promotion loop, line 168. */
  function AfterRead(cur: int): PromotePc {
    if cur > 0 && cur != INITIAL_STRONG_VALUE then Cas(cur) else CheckMode(cur)
  }

  function Acquired(th: Thread): Thread {
    th.(pc := Idle, strong := th.strong + 1, ok := true)
  }

  function Refused(th: Thread): Thread {
    th.(pc := DecWeak(SubWeakUnit), ok := false)
  }

  /** attemptIncStrong, lines 160-230. */
  function ExecPromote(m: Memory, th: Thread, t: nat, pc: PromotePc, choice: bool): (Memory, Thread) {
    match pc
    case TakeWeakUnit => (m.(mWeak := m.mWeak + 1), th.(pc := Promote(LoadStrong)))
    case LoadStrong => (m, th.(pc := Promote(AfterRead(m.mStrong))))
    case Cas(cur) =>
      if m.mStrong == cur && !choice
      then (m.(mStrong := cur + 1, raw := DropRaw(m.raw, t)), Acquired(th))
      else (m, th.(pc := Promote(AfterRead(m.mStrong))))
    case CheckMode(cur) =>
      (m, if m.mode == WeakLifetime then th.(pc := Promote(AskObject))
          else if cur <= 0 then Refused(th) else th.(pc := Promote(CasFirst(cur))))
    case CasFirst(cur) =>
      if m.mStrong == cur && !choice then
        var m' := m.(mStrong := cur + 1, raw := DropRaw(m.raw, t));
        if cur == INITIAL_STRONG_VALUE then (m'.(bias := Taken(t)), th.(pc := Promote(RemoveBias)))
        else (m', Acquired(th))
      else (m, if m.mStrong > 0 then th.(pc := Promote(CasFirst(m.mStrong))) else Refused(th))
    case AskObject => (m, if choice then th.(pc := Promote(AddUnit)) else Refused(th))
    case AddUnit =>
      var m' := m.(mStrong := m.mStrong + 1, raw := DropRaw(m.raw, t));
      if m.mStrong == INITIAL_STRONG_VALUE then (m'.(bias := Taken(t)), th.(pc := Promote(RemoveBias)))
      else (m', if m.mStrong != 0 then th.(pc := Promote(RepeatLastStrong)) else Acquired(th))
    case RepeatLastStrong => (m, Acquired(th))
    case RemoveBias => (m.(mStrong := m.mStrong - INITIAL_STRONG_VALUE, bias := Done), Acquired(th))
  }

  /** attemptIncWeak, lines 232-252. */
  function ExecProbe(m: Memory, th: Thread, pc: ProbePc, choice: bool): (Memory, Thread) {
    if pc.CasWeak? && m.mWeak == pc.cur && !choice
    then (m.(mWeak := m.mWeak + 1), th.(pc := Idle, weak := th.weak + 1, ok := true))
    else (m, if m.mWeak > 0 then th.(pc := Probe(CasWeak(m.mWeak))) else th.(pc := Idle, ok := false))
  }

  /**
   The access at `th.pc`.  `choice` is a spurious failure of
   `compare_exchange_weak`, or the answer of the virtual `onIncStrongAttempted`.
   */
  function Exec(m: Memory, th: Thread, t: nat, choice: bool): (Memory, Thread) {
    match th.pc
    case Idle => (m, th)
    case IncStrong(pc) => ExecIncStrong(m, th, t, pc)
    case DecStrong(pc) => ExecDecStrong(m, th, t, pc)
    case Destroy(pc, caller) => ExecDtor(m, th, pc, caller)
    case IncWeak(_) => (m.(mWeak := m.mWeak + 1), th.(pc := Idle, weak := th.weak + 1))
    case DecWeak(pc) => ExecDecWeak(m, th, t, pc)
    case Promote(pc) => ExecPromote(m, th, t, pc, choice)
    case Probe(pc) => ExecProbe(m, th, pc, choice)
  }

  /** What client code may do between calls. */
  datatype Call =
    | IncStrongCall | DecStrongCall | IncWeakCall(viaObject: bool) | DecWeakCall
    | PromoteCall | ProbeCall | GiveUpRaw | ExtendLifetime

  /**
   The discipline the clients keep.  A strong reference is copied by a holder,
   or first made by the creator through the raw pointer; while the creator
   relies on that pointer it keeps a weak reference once it has published one,
   and nobody else promotes.
   */
  predicate MayBegin(m: Memory, th: Thread, t: nat, call: Call) {
    var mine := OwnsRaw(m.raw, t);
    th.pc == Idle &&
    match call
    case IncStrongCall => th.strong >= 1 || mine
    case DecStrongCall => th.strong >= 1
    case IncWeakCall(viaObject) => if viaObject then th.strong >= 1 || mine else th.weak >= 1
    case DecWeakCall => th.weak >= 1 && (mine && (m.raw.Published? || m.mode == WeakLifetime) ==> th.weak >= 2)
    case PromoteCall => th.weak >= 1 && (m.raw == NoRaw || mine)
    case ProbeCall => th.strong >= 1 || th.weak >= 1
    case GiveUpRaw => mine && th.weak >= 1
    case ExtendLifetime => m.raw == Private(t)
  }

  /** The start of a call: a reference being released moves from the client into the call. */
  function Begin(m: Memory, th: Thread, call: Call): (Memory, Thread) {
    match call
    case IncStrongCall => (m, th.(pc := IncStrong(AddWeakUnit)))
    case DecStrongCall =>
      (m, th.(pc := DecStrong(SubStrongUnit), strong := if th.strong >= 1 then th.strong - 1 else 0))
    case IncWeakCall(viaObject) => (m, th.(pc := IncWeak(viaObject)))
    case DecWeakCall => (m, th.(pc := DecWeak(SubWeakUnit), weak := if th.weak >= 1 then th.weak - 1 else 0))
    case PromoteCall => (m, th.(pc := Promote(TakeWeakUnit)))
    case ProbeCall => (m, th.(pc := Probe(LoadWeak)))
    case GiveUpRaw => (m.(raw := NoRaw), th)
    case ExtendLifetime => (m.(mode := WeakLifetime), th)
  }

  datatype Action =
    | Client(t: nat, call: Call)         // start a call, or act without one
    | Run(t: nat, choice: bool)          // one atomic access of the call in progress
    | GiveStrong(t: nat, to: nat)        // hand a strong reference to another thread
    | GiveWeak(t: nat, to: nat)          // hand a weak reference to another thread

  predicate Enabled(s: State, a: Action) {
    a.t < |s.threads| &&
    var th := s.threads[a.t];
    match a
    case Client(t, call) => MayBegin(s.mem, th, t, call)
    case Run(_, _) => th.pc != Idle
    case GiveStrong(t, to) => to < |s.threads| && to != t && th.pc == Idle && th.strong >= 1
    case GiveWeak(t, to) =>
      to < |s.threads| && to != t && th.pc == Idle && th.weak >= (if OwnsRaw(s.mem.raw, t) then 2 else 1)
  }

  function Apply(s: State, a: Action): State
    requires Enabled(s, a)
  {
    var th := s.threads[a.t];
    match a
    case Client(t, call) =>
      var (m, th') := Begin(s.mem, th, call);
      State(m, s.threads[t := th'])
    case Run(t, choice) =>
      var (m, th') := Exec(s.mem, th, t, choice);
      State(m, s.threads[t := th'])
    case GiveStrong(t, to) =>
      var giver := th.(strong := th.strong - 1);
      var taker := s.threads[to].(strong := s.threads[to].strong + 1);
      State(s.mem, s.threads[t := giver][to := taker])
    case GiveWeak(t, to) =>
      var giver := th.(weak := th.weak - 1);
      var taker := s.threads[to].(weak := s.threads[to].weak + 1);
      State(s.mem.(raw := if OwnsRaw(s.mem.raw, t) then Published(t) else s.mem.raw),
            s.threads[t := giver][to := taker])
  }

  // ---------------------------------------------------------------------------
  // Units of the counters
  // ---------------------------------------------------------------------------

  predicate HoldsStrongUnit(pc: Pc) {
    || pc == IncStrong(SubtractBias) || pc == IncStrong(CallFirstRef) || pc == DecStrong(SubStrongUnit)
    || pc == Promote(RepeatLastStrong) || pc == Promote(RemoveBias)
  }

  predicate HoldsWeakUnit(pc: Pc) {
    match pc
    case IncStrong(inc) => inc != AddWeakUnit
    case DecStrong(_) => true
    case Destroy(_, caller) => caller == FromDecStrong
    case DecWeak(decw) => decw == SubWeakUnit
    case Promote(try) => try != TakeWeakUnit
    case _ => false
  }

  function StrongUnits(th: Thread): nat {
    th.strong + if HoldsStrongUnit(th.pc) then 1 else 0
  }

  /** Each strong reference also owns a unit of mWeak. */
  function WeakUnits(th: Thread): nat {
    th.strong + th.weak + if HoldsWeakUnit(th.pc) then 1 else 0
  }

  function StrongTotal(ths: seq<Thread>): nat {
    Sum(seq(|ths|, i requires 0 <= i < |ths| => StrongUnits(ths[i])))
  }

  function WeakTotal(ths: seq<Thread>): nat {
    Sum(seq(|ths|, i requires 0 <= i < |ths| => WeakUnits(ths[i])))
  }

  /** The threads with `t` replaced by one that holds nothing. */
  function Others(ths: seq<Thread>, t: nat): seq<Thread>
    requires t < |ths|
  {
    ths[t := Thread(Idle, 0, 0, false)]
  }

  /** The totals split into one thread's units and the others', for any state of that thread. */
  lemma TotalSplit(ths: seq<Thread>, t: nat, th: Thread)
    requires t < |ths|
    ensures StrongTotal(ths[t := th]) == StrongTotal(Others(ths, t)) + StrongUnits(th)
    ensures WeakTotal(ths[t := th]) == WeakTotal(Others(ths, t)) + WeakUnits(th)
  {
    var others := Others(ths, t);
    var ss := seq(|ths|, i requires 0 <= i < |ths| => StrongUnits(others[i]));
    var ws := seq(|ths|, i requires 0 <= i < |ths| => WeakUnits(others[i]));
    SumOfUpdate(ss, t, StrongUnits(th));
    SumOfUpdate(ws, t, WeakUnits(th));
    assert ss[t := StrongUnits(th)] == seq(|ths|, i requires 0 <= i < |ths| => StrongUnits(ths[t := th][i]));
    assert ws[t := WeakUnits(th)] == seq(|ths|, i requires 0 <= i < |ths| => WeakUnits(ths[t := th][i]));
  }

  lemma StrongWithinWeak(ths: seq<Thread>)
    ensures StrongTotal(ths) <= WeakTotal(ths)
  {
    SumMonotone(seq(|ths|, i requires 0 <= i < |ths| => StrongUnits(ths[i])),
                seq(|ths|, i requires 0 <= i < |ths| => WeakUnits(ths[i])));
  }

  predicate Blank(th: Thread) {
    th.pc == Idle && th.strong == 0 && th.weak == 0
  }

  lemma TotalBlank(ths: seq<Thread>)
    requires forall t :: 0 <= t < |ths| ==> Blank(ths[t])
    ensures WeakTotal(ths) == StrongTotal(ths) == 0
  {
    StrongWithinWeak(ths);
    SumZero(seq(|ths|, i requires 0 <= i < |ths| => WeakUnits(ths[i])));
  }

  // ---------------------------------------------------------------------------
  // The invariant
  // ---------------------------------------------------------------------------

  /** The last strong reference is gone; `s` is the total of strong units. */
  predicate Released(m: Memory, s: nat) {
    m.bias == Done && s == 0
  }

  /** The counters count the units; an object with the bias untouched has no strong ones. */
  predicate CountersOk(m: Memory, w: nat, s: nat) {
    && m.mWeak == w
    && m.mStrong == (if m.bias == Done then 0 else INITIAL_STRONG_VALUE) + s
    && (m.bias == Pending ==> s == 0 && m.first == Pending)
    && (m.bias.Taken? ==> s >= 1)
  }

  predicate StrongModeOk(m: Memory, w: nat, s: nat) {
    && (m.obj == Pending <==> !Released(m, s))
    && (m.impl != Pending ==> w == 0)
    && (m.impl == Done ==> m.bias == Done)
    && (w == 0 && m.raw == NoRaw && m.impl == Pending ==> m.bias == Pending)
  }

  predicate WeakModeOk(m: Memory, w: nat) {
    && (m.impl == Pending <==> m.obj == Pending)
    && (m.impl != Pending ==> w == 0)
    && (w == 0 && m.raw == NoRaw ==> m.impl != Pending)
  }

  /** While the creator relies on the raw pointer, only it may be looking at a weak count of zero. */
  predicate RawOk(m: Memory) {
    && m.bias == Pending
    && m.obj == Pending
    && (m.impl == Pending || (m.impl.Taken? && m.raw == Private(m.impl.thread)))
  }

  predicate MemoryOk(m: Memory, w: nat, s: nat) {
    && CountersOk(m, w, s)
    && (m.mode == StrongLifetime ==> StrongModeOk(m, w, s))
    && (m.mode == WeakLifetime ==> WeakModeOk(m, w))
    && (m.raw != NoRaw ==> RawOk(m))
  }

  // What thread `t` knows at its program counter.

  /** Its duties are those the history says it has taken. */
  predicate Duties(m: Memory, pc: Pc, t: nat) {
    && (m.bias == Taken(t) <==> pc == IncStrong(SubtractBias) || pc == Promote(RemoveBias))
    && (m.first == Taken(t) <==> pc == IncStrong(SubtractBias) || pc == IncStrong(CallFirstRef))
    && (m.impl == Taken(t) <==>
          || (pc.DecWeak? && pc.decw != SubWeakUnit)
          || (pc.Destroy? && pc.caller == FromDecWeak && pc.dtor != EndObject))
    && (m.obj == Taken(t) <==>
          || (m.mode == StrongLifetime && pc.DecStrong? && pc.dec != SubStrongUnit)
          || (m.mode == WeakLifetime && pc.DecWeak? && pc.decw != SubWeakUnit)
          || pc.Destroy?)
  }

  predicate DtorLocal(m: Memory, pc: DtorPc, caller: Caller) {
    && (caller == FromDecStrong <==> m.mode == StrongLifetime)
    && (pc == ReadStrong ==> m.mode == StrongLifetime)
    && (pc == ReadWeak || pc == FreeImpl ==> m.mode == WeakLifetime)
  }

  predicate DecWeakLocal(m: Memory, pc: DecWeakPc) {
    && (pc == CheckStrong ==> m.mode == StrongLifetime)
    && (pc == DeleteImpl ==> m.mode == StrongLifetime && m.bias == Done)
    && (pc == CallLastWeak ==> m.mode == WeakLifetime)
  }

  predicate PromoteLocal(m: Memory, released: bool, pc: PromotePc) {
    match pc
    case Cas(cur) => cur > 0 && cur != INITIAL_STRONG_VALUE
    case CheckMode(cur) =>
      (cur == INITIAL_STRONG_VALUE || cur <= 0) && (m.mode == StrongLifetime && cur <= 0 ==> released)
    case CasFirst(cur) => m.mode == StrongLifetime && cur > 0
    case AskObject | AddUnit | RepeatLastStrong => m.mode == WeakLifetime
    case _ => true
  }

  predicate PcLocal(m: Memory, released: bool, th: Thread, mine: bool) {
    match th.pc
    case Idle => true
    case DecStrong(_) => m.raw == NoRaw
    case IncStrong(pc) => pc == AddWeakUnit || pc == AddStrongUnit ==> th.strong >= 1 || mine
    case Destroy(pc, caller) => DtorLocal(m, pc, caller)
    case IncWeak(viaObject) => if viaObject then th.strong >= 1 || mine else th.weak >= 1
    case DecWeak(pc) => DecWeakLocal(m, pc) && (mine && m.mode == WeakLifetime ==> th.weak >= 1)
    case Promote(pc) => (m.raw == NoRaw || mine) && th.weak >= 1 && PromoteLocal(m, released, pc)
    case Probe(pc) => th.strong + th.weak >= 1 && (pc.CasWeak? ==> pc.cur > 0)
  }

  predicate LocalOk(m: Memory, released: bool, th: Thread, t: nat) {
    var mine := OwnsRaw(m.raw, t);
    && (m.raw.Private? && !mine ==> Blank(th))
    && (m.raw.Published? && mine ==> th.weak >= 1)
    && Duties(m, th.pc, t)
    && PcLocal(m, released, th, mine)
  }

  /** The clients keep fewer than 2^28 strong units, and no more weak units than an int32 counts. */
  predicate Bounded(s: State) {
    StrongTotal(s.threads) < INITIAL_STRONG_VALUE && WeakTotal(s.threads) <= INT32_MAX
  }

  predicate KnownThreads(m: Memory, n: nat) {
    && (m.raw != NoRaw ==> m.raw.owner < n)
    && (m.bias.Taken? ==> m.bias.thread < n)
    && (m.obj.Taken? ==> m.obj.thread < n)
    && (m.impl.Taken? ==> m.impl.thread < n)
  }

  predicate Inv(s: State) {
    && Bounded(s)
    && MemoryOk(s.mem, WeakTotal(s.threads), StrongTotal(s.threads))
    && KnownThreads(s.mem, |s.threads|)
    && forall t :: 0 <= t < |s.threads| ==> LocalOk(s.mem, Released(s.mem, StrongTotal(s.threads)), s.threads[t], t)
  }

  /** A new object: no references, and its creator (thread 0) holding the raw pointer. */
  predicate Init(s: State) {
    && |s.threads| >= 1
    && (forall t :: 0 <= t < |s.threads| ==> Blank(s.threads[t]))
    && s.mem == Memory(INITIAL_STRONG_VALUE, 0, StrongLifetime, Private(0), Pending, Pending, Pending, Pending)
  }

  lemma InitInv(s: State)
    requires Init(s)
    ensures Inv(s)
  {
    TotalBlank(s.threads);
  }

  // ---------------------------------------------------------------------------
  // One thread's step, as arithmetic on its units
  // ---------------------------------------------------------------------------

  /** The situation of thread `t` when the other threads own `w` weak and `s` strong units. */
  predicate Situation(m: Memory, w: nat, s: nat, th: Thread, t: nat) {
    && s <= w
    && s + StrongUnits(th) < INITIAL_STRONG_VALUE
    && MemoryOk(m, w + WeakUnits(th), s + StrongUnits(th))
    && LocalOk(m, Released(m, s + StrongUnits(th)), th, t)
    && (m.raw.Private? && OwnsRaw(m.raw, t) ==> w == 0)
    && (m.raw.Published? && !OwnsRaw(m.raw, t) ==> w >= 1)
    && (m.bias.Taken? && m.bias.thread != t ==> s >= 1)
  }

  /** What a step keeps of the memory; in strong mode a released object stays released. */
  predicate StepMemory(m: Memory, m': Memory, w: nat, s: nat, th: Thread, th': Thread) {
    && MemoryOk(m', w + WeakUnits(th'), s + StrongUnits(th'))
    && (m.mode == StrongLifetime && Released(m, s + StrongUnits(th)) ==> Released(m', s + StrongUnits(th')))
  }

  predicate StepLocal(m': Memory, s: nat, th': Thread, t: nat) {
    LocalOk(m', Released(m', s + StrongUnits(th')), th', t)
  }

  predicate SameDuty(a: Stage, b: Stage, t: nat) {
    a == b || ((a.Taken? ==> a.thread == t) && (b.Taken? ==> b.thread == t))
  }

  /** What a step of `t` changes for the others. */
  predicate StepFrame(m: Memory, m': Memory, t: nat) {
    && (m'.raw == m.raw || (m'.raw == NoRaw && OwnsRaw(m.raw, t)))
    && (m'.mode == m.mode || (m.raw == Private(t) && m'.mode == WeakLifetime))
    && SameDuty(m.bias, m'.bias, t) && SameDuty(m.first, m'.first, t)
    && SameDuty(m.obj, m'.obj, t) && SameDuty(m.impl, m'.impl, t)
    && (m.bias != Pending ==> m'.bias != Pending)
    && (m.bias == Done ==> m'.bias == Done) && (m.first == Done ==> m'.first == Done)
    && (m.obj == Done ==> m'.obj == Done) && (m.impl == Done ==> m'.impl == Done)
  }

  /** Everything a step of `t` keeps. */
  predicate Kept(m: Memory, m': Memory, w: nat, s: nat, th: Thread, th': Thread, t: nat) {
    StepMemory(m, m', w, s, th, th') && StepLocal(m', s, th', t) && StepFrame(m, m', t)
  }

  lemma IncStrongKeeps(m: Memory, w: nat, s: nat, th: Thread, t: nat, pc: IncStrongPc)
    requires th.pc == IncStrong(pc) && Situation(m, w, s, th, t)
    ensures var (m', th') := ExecIncStrong(m, th, t, pc); Kept(m, m', w, s, th, th', t)
  {
    match pc
    case AddWeakUnit =>
    case AddStrongUnit =>
    case SubtractBias =>
    case CallFirstRef =>
  }

  lemma DecStrongKeeps(m: Memory, w: nat, s: nat, th: Thread, t: nat, pc: DecStrongPc)
    requires th.pc == DecStrong(pc) && Situation(m, w, s, th, t)
    ensures var (m', th') := ExecDecStrong(m, th, t, pc); Kept(m, m', w, s, th, th', t)
  {
    match pc
    case SubStrongUnit =>
    case CallLastStrong =>
    case LoadFlags =>
  }

  lemma DtorKeeps(m: Memory, w: nat, s: nat, th: Thread, t: nat, pc: DtorPc, c: Caller)
    requires th.pc == Destroy(pc, c) && Situation(m, w, s, th, t)
    ensures var (m', th') := ExecDtor(m, th, pc, c); Kept(m, m', w, s, th, th', t)
  {
    match pc
    case ReadFlags =>
    case ReadWeak =>
    case FreeImpl =>
    case ReadStrong =>
    case EndObject =>
  }

  lemma IncWeakKeeps(m: Memory, w: nat, s: nat, th: Thread, t: nat)
    requires th.pc.IncWeak? && Situation(m, w, s, th, t)
    ensures var (m', th') := Exec(m, th, t, false); Kept(m, m', w, s, th, th', t)
  {
  }

  lemma DecWeakKeeps(m: Memory, w: nat, s: nat, th: Thread, t: nat, pc: DecWeakPc)
    requires th.pc == DecWeak(pc) && Situation(m, w, s, th, t)
    ensures var (m', th') := ExecDecWeak(m, th, t, pc); Kept(m, m', w, s, th, th', t)
  {
    match pc
    case SubWeakUnit => SubWeakKeeps(m, w, s, th, t);
    case CheckFlags =>
    case CheckStrong =>
    case DeleteImpl =>
    case CallLastWeak =>
  }

  lemma SubWeakKeeps(m: Memory, w: nat, s: nat, th: Thread, t: nat)
    requires th.pc == DecWeak(SubWeakUnit) && Situation(m, w, s, th, t)
    ensures var (m', th') := ExecDecWeak(m, th, t, SubWeakUnit); Kept(m, m', w, s, th, th', t)
  {
  }

  lemma PromoteReadKeeps(m: Memory, w: nat, s: nat, th: Thread, t: nat, pc: PromotePc, choice: bool)
    requires (pc.TakeWeakUnit? || pc.LoadStrong? || pc.CheckMode?) && th.pc == Promote(pc) && Situation(m, w, s, th, t)
    ensures var (m', th') := ExecPromote(m, th, t, pc, choice); Kept(m, m', w, s, th, th', t)
  {
    match pc
    case TakeWeakUnit => TakeWeakKeeps(m, w, s, th, t, choice);
    case LoadStrong =>
    case CheckMode(_) =>
  }

  lemma TakeWeakKeeps(m: Memory, w: nat, s: nat, th: Thread, t: nat, choice: bool)
    requires th.pc == Promote(TakeWeakUnit) && Situation(m, w, s, th, t)
    ensures var (m', th') := ExecPromote(m, th, t, TakeWeakUnit, choice); Kept(m, m', w, s, th, th', t)
  {
  }

  lemma PromoteCasKeeps(m: Memory, w: nat, s: nat, th: Thread, t: nat, cur: int, choice: bool)
    requires th.pc == Promote(Cas(cur)) && Situation(m, w, s, th, t)
    ensures var (m', th') := ExecPromote(m, th, t, Cas(cur), choice); Kept(m, m', w, s, th, th', t)
  {
  }

  lemma PromoteCasFirstKeeps(m: Memory, w: nat, s: nat, th: Thread, t: nat, cur: int, choice: bool)
    requires th.pc == Promote(CasFirst(cur)) && Situation(m, w, s, th, t)
    ensures var (m', th') := ExecPromote(m, th, t, CasFirst(cur), choice); Kept(m, m', w, s, th, th', t)
  {
    if m.mStrong == cur && !choice {
      CasFirstWins(m, w, s, th, t, cur);
    }
  }

  lemma CasFirstWins(m: Memory, w: nat, s: nat, th: Thread, t: nat, cur: int)
    requires th.pc == Promote(CasFirst(cur)) && Situation(m, w, s, th, t) && m.mStrong == cur
    ensures var (m', th') := ExecPromote(m, th, t, CasFirst(cur), false); Kept(m, m', w, s, th, th', t)
  {
    if cur == INITIAL_STRONG_VALUE {
    } else {
    }
  }

  lemma PromoteAddKeeps(m: Memory, w: nat, s: nat, th: Thread, t: nat, pc: PromotePc, choice: bool)
    requires pc.AskObject? || pc.AddUnit? || pc.RepeatLastStrong? || pc.RemoveBias?
    requires th.pc == Promote(pc) && Situation(m, w, s, th, t)
    ensures var (m', th') := ExecPromote(m, th, t, pc, choice); Kept(m, m', w, s, th, th', t)
  {
    match pc
    case AskObject =>
    case AddUnit => AddUnitKeeps(m, w, s, th, t, choice);
    case RepeatLastStrong =>
    case RemoveBias => RemoveBiasKeeps(m, w, s, th, t, choice);
  }

  lemma AddUnitKeeps(m: Memory, w: nat, s: nat, th: Thread, t: nat, choice: bool)
    requires th.pc == Promote(AddUnit) && Situation(m, w, s, th, t)
    ensures var (m', th') := ExecPromote(m, th, t, AddUnit, choice); Kept(m, m', w, s, th, th', t)
  {
  }

  lemma RemoveBiasKeeps(m: Memory, w: nat, s: nat, th: Thread, t: nat, choice: bool)
    requires th.pc == Promote(RemoveBias) && Situation(m, w, s, th, t)
    ensures var (m', th') := ExecPromote(m, th, t, RemoveBias, choice); Kept(m, m', w, s, th, th', t)
  {
  }

  lemma ProbeKeeps(m: Memory, w: nat, s: nat, th: Thread, t: nat, pc: ProbePc, choice: bool)
    requires th.pc == Probe(pc) && Situation(m, w, s, th, t)
    ensures var (m', th') := ExecProbe(m, th, pc, choice); Kept(m, m', w, s, th, th', t)
  {
    match pc
    case LoadWeak =>
    case CasWeak(_) =>
  }

  lemma BeginKeeps(m: Memory, w: nat, s: nat, th: Thread, t: nat, call: Call)
    requires Situation(m, w, s, th, t) && MayBegin(m, th, t, call)
    ensures var (m', th') := Begin(m, th, call); Kept(m, m', w, s, th, th', t)
  {
    match call
    case DecStrongCall | DecWeakCall => BeginReleaseKeeps(m, w, s, th, t, call);
    case GiveUpRaw | ExtendLifetime => ClientStepKeeps(m, w, s, th, t, call);
    case IncStrongCall | IncWeakCall(_) | PromoteCall | ProbeCall => BeginAcquireKeeps(m, w, s, th, t, call);
  }

  lemma BeginAcquireKeeps(m: Memory, w: nat, s: nat, th: Thread, t: nat, call: Call)
    requires call.IncStrongCall? || call.IncWeakCall? || call.PromoteCall? || call.ProbeCall?
    requires Situation(m, w, s, th, t) && MayBegin(m, th, t, call)
    ensures var (m', th') := Begin(m, th, call); Kept(m, m', w, s, th, th', t)
  {
    match call
    case IncStrongCall =>
    case IncWeakCall(_) =>
    case PromoteCall =>
    case ProbeCall =>
  }

  lemma BeginReleaseKeeps(m: Memory, w: nat, s: nat, th: Thread, t: nat, call: Call)
    requires call.DecStrongCall? || call.DecWeakCall?
    requires Situation(m, w, s, th, t) && MayBegin(m, th, t, call)
    ensures var (m', th') := Begin(m, th, call); Kept(m, m', w, s, th, th', t)
  {
    match call
    case DecStrongCall =>
    case DecWeakCall =>
  }

  lemma ClientStepKeeps(m: Memory, w: nat, s: nat, th: Thread, t: nat, call: Call)
    requires call.GiveUpRaw? || call.ExtendLifetime?
    requires Situation(m, w, s, th, t) && MayBegin(m, th, t, call)
    ensures var (m', th') := Begin(m, th, call); Kept(m, m', w, s, th, th', t)
  {
    match call
    case GiveUpRaw =>
    case ExtendLifetime =>
  }

  lemma ExecKeeps(m: Memory, w: nat, s: nat, th: Thread, t: nat, choice: bool)
    requires th.pc != Idle && Situation(m, w, s, th, t)
    ensures var (m', th') := Exec(m, th, t, choice); Kept(m, m', w, s, th, th', t)
  {
    match th.pc
    case IncStrong(pc) => IncStrongKeeps(m, w, s, th, t, pc);
    case DecStrong(pc) => DecStrongKeeps(m, w, s, th, t, pc);
    case Destroy(pc, c) => DtorKeeps(m, w, s, th, t, pc, c);
    case IncWeak(_) => IncWeakKeeps(m, w, s, th, t);
    case DecWeak(pc) => DecWeakKeeps(m, w, s, th, t, pc);
    case Probe(pc) => ProbeKeeps(m, w, s, th, t, pc, choice);
    case Promote(pc) =>
      match pc {
        case Cas(cur) => PromoteCasKeeps(m, w, s, th, t, cur, choice);
        case CasFirst(cur) => PromoteCasFirstKeeps(m, w, s, th, t, cur, choice);
        case TakeWeakUnit | LoadStrong | CheckMode(_) => PromoteReadKeeps(m, w, s, th, t, pc, choice);
        case _ => PromoteAddKeeps(m, w, s, th, t, pc, choice);
      }
  }

  // ---------------------------------------------------------------------------
  // From one thread to the machine
  // ---------------------------------------------------------------------------

  /** A thread's own units are part of the others' total seen by another thread. */
  lemma OthersInclude(ths: seq<Thread>, t: nat, u: nat)
    requires t < |ths| && u < |ths| && t != u
    ensures WeakTotal(Others(ths, t)) >= WeakUnits(ths[u])
    ensures StrongTotal(Others(ths, t)) >= StrongUnits(ths[u])
  {
    var others := Others(ths, t);
    TotalSplit(others, u, others[u]);
    assert others[u := others[u]] == others;
  }

  lemma InvGivesSituation(s: State, t: nat)
    requires Inv(s) && t < |s.threads|
    ensures Situation(s.mem, WeakTotal(Others(s.threads, t)), StrongTotal(Others(s.threads, t)), s.threads[t], t)
  {
    var ths, m := s.threads, s.mem;
    var others := Others(ths, t);
    TotalSplit(ths, t, ths[t]);
    assert ths[t := ths[t]] == ths;
    StrongWithinWeak(others);
    if m.raw == Private(t) {
      assert forall u :: 0 <= u < |ths| && u != t ==> LocalOk(m, Released(m, StrongTotal(ths)), ths[u], u);
      TotalBlank(others);
    }
    if m.raw.Published? && m.raw.owner != t {
      assert LocalOk(m, Released(m, StrongTotal(ths)), ths[m.raw.owner], m.raw.owner);
      OthersInclude(ths, t, m.raw.owner);
    }
    if m.bias.Taken? && m.bias.thread != t {
      assert LocalOk(m, Released(m, StrongTotal(ths)), ths[m.bias.thread], m.bias.thread);
      OthersInclude(ths, t, m.bias.thread);
    }
  }

  /** What another thread knows survives a step of `t`. */
  lemma OtherKeeps(m: Memory, m': Memory, r: bool, r': bool, t: nat, th: Thread, u: nat)
    requires u != t && LocalOk(m, r, th, u) && StepFrame(m, m', t)
    requires m.mode == StrongLifetime && r ==> r'
    ensures LocalOk(m', r', th, u)
  {
  }

  lemma LocalStepInv(s: State, t: nat, m': Memory, th': Thread)
    requires Inv(s) && t < |s.threads|
    requires Kept(s.mem, m', WeakTotal(Others(s.threads, t)), StrongTotal(Others(s.threads, t)), s.threads[t], th', t)
    requires Bounded(State(m', s.threads[t := th']))
    ensures Inv(State(m', s.threads[t := th']))
  {
    var ths := s.threads;
    var ths' := ths[t := th'];
    TotalSplit(ths, t, ths[t]);
    assert ths[t := ths[t]] == ths;
    TotalSplit(ths, t, th');
    var r, r' := Released(s.mem, StrongTotal(ths)), Released(m', StrongTotal(ths'));
    forall u | 0 <= u < |ths'|
      ensures LocalOk(m', r', ths'[u], u)
    {
      if u != t {
        assert LocalOk(s.mem, r, ths[u], u);
        OtherKeeps(s.mem, m', r, r', t, ths[u], u);
      }
    }
  }

  lemma GiveTotals(s: State, a: Action)
    requires Enabled(s, a) && (a.GiveStrong? || a.GiveWeak?)
    ensures WeakTotal(Apply(s, a).threads) == WeakTotal(s.threads)
    ensures StrongTotal(Apply(s, a).threads) == StrongTotal(s.threads)
  {
    var ths, t, to := s.threads, a.t, a.to;
    var ths' := Apply(s, a).threads;
    var half := ths[t := ths'[t]];
    TotalSplit(ths, t, ths[t]);
    assert ths[t := ths[t]] == ths;
    TotalSplit(ths, t, half[t]);
    TotalSplit(half, to, half[to]);
    assert half[to := half[to]] == half;
    TotalSplit(half, to, ths'[to]);
  }

  /** What a thread knows survives a hand-over, whether it gives, takes or watches. */
  lemma HandedOver(s: State, a: Action, u: nat)
    requires Enabled(s, a) && (a.GiveStrong? || a.GiveWeak?) && u < |s.threads|
    requires a.GiveStrong? ==> s.mem.raw == NoRaw
    requires var r := Released(s.mem, StrongTotal(s.threads));
             LocalOk(s.mem, r, s.threads[u], u) && LocalOk(s.mem, r, s.threads[a.t], a.t)
    ensures var s' := Apply(s, a); LocalOk(s'.mem, Released(s.mem, StrongTotal(s.threads)), s'.threads[u], u)
  {
  }

  lemma GiveInv(s: State, a: Action)
    requires Inv(s) && Enabled(s, a) && (a.GiveStrong? || a.GiveWeak?)
    ensures Inv(Apply(s, a))
  {
    GiveTotals(s, a);
    TotalSplit(s.threads, a.t, s.threads[a.t]);
    assert s.threads[a.t := s.threads[a.t]] == s.threads;
    var s' := Apply(s, a);
    var r := Released(s.mem, StrongTotal(s.threads));
    forall u | 0 <= u < |s.threads|
      ensures LocalOk(s'.mem, r, s'.threads[u], u)
    {
      HandedOver(s, a, u);
    }
  }

  /** Events that happened stay so; in strong mode, so does the loss of the last strong reference. */
  predicate Progress(s: State, s': State) {
    && (s.mem.bias != Pending ==> s'.mem.bias != Pending)
    && (s.mem.bias == Done ==> s'.mem.bias == Done) && (s.mem.first == Done ==> s'.mem.first == Done)
    && (s.mem.obj == Done ==> s'.mem.obj == Done) && (s.mem.impl == Done ==> s'.mem.impl == Done)
    && (LostForGood(s) ==> LostForGood(s'))
  }

  predicate LostForGood(s: State) {
    s.mem.mode == StrongLifetime && Released(s.mem, StrongTotal(s.threads))
  }

  /** The invariant survives every action of every thread. */
  lemma StepInv(s: State, a: Action)
    requires Inv(s) && Enabled(s, a) && Bounded(Apply(s, a))
    ensures Inv(Apply(s, a)) && Progress(s, Apply(s, a))
  {
    if a.Client? || a.Run? {
      var w, n := WeakTotal(Others(s.threads, a.t)), StrongTotal(Others(s.threads, a.t));
      var th := s.threads[a.t];
      InvGivesSituation(s, a.t);
      if a.Client? {
        BeginKeeps(s.mem, w, n, th, a.t, a.call);
        var (m', th') := Begin(s.mem, th, a.call);
        LocalStepInv(s, a.t, m', th');
      } else {
        ExecKeeps(s.mem, w, n, th, a.t, a.choice);
        var (m', th') := Exec(s.mem, th, a.t, a.choice);
        LocalStepInv(s, a.t, m', th');
      }
    } else {
      GiveInv(s, a);
      GiveTotals(s, a);
    }
  }

  // ---------------------------------------------------------------------------
  // Whole runs
  // ---------------------------------------------------------------------------

  ghost predicate Next(s: State, a: Action, s': State) {
    Enabled(s, a) && s' == Apply(s, a) && Bounded(s')
  }

  /** A run from a new object: states and the actions between them, the clients keeping their bounds. */
  ghost predicate IsRun(ss: seq<State>, acts: seq<Action>) {
    && |ss| == |acts| + 1
    && Init(ss[0])
    && forall i :: 0 <= i < |acts| ==> Next(ss[i], acts[i], ss[i + 1])
  }

  lemma {:induction false} RunInv(ss: seq<State>, acts: seq<Action>, i: nat)
    requires IsRun(ss, acts) && i < |ss|
    ensures Inv(ss[i])
  {
    if i == 0 {
      InitInv(ss[0]);
    } else {
      RunInv(ss, acts, i - 1);
      assert Next(ss[i - 1], acts[i - 1], ss[i]);
      StepInv(ss[i - 1], acts[i - 1]);
    }
  }

  lemma RunProgress(ss: seq<State>, acts: seq<Action>, i: nat, j: nat)
    requires IsRun(ss, acts) && i <= j < |ss|
    ensures Progress(ss[i], ss[j])
  {
    forall k | i <= k < j ensures Progress(ss[k], ss[k + 1]) {
      StepProgress(ss, acts, k);
    }
    ProgressChain(ss, i, j);
  }

  lemma {:induction false} ProgressChain(ss: seq<State>, i: nat, j: nat)
    requires i <= j < |ss| && forall k :: i <= k < j ==> Progress(ss[k], ss[k + 1])
    ensures Progress(ss[i], ss[j])
  {
    if i < j {
      ProgressChain(ss, i, j - 1);
      ProgressContinues(ss[i], ss[j - 1], ss[j]);
    }
  }

  lemma StepProgress(ss: seq<State>, acts: seq<Action>, i: nat)
    requires IsRun(ss, acts) && i < |acts|
    ensures Progress(ss[i], ss[i + 1])
  {
    RunInv(ss, acts, i);
    assert Next(ss[i], acts[i], ss[i + 1]);
    StepInv(ss[i], acts[i]);
  }

  lemma ProgressContinues(a: State, b: State, c: State)
    requires Progress(a, b) && Progress(b, c)
    ensures Progress(a, c)
  {
  }

  /** The accesses that dereference the weakref_impl. */
  predicate TouchesImpl(pc: Pc) {
    pc != Idle && !(pc.Destroy? && pc.dtor == EndObject)
  }

  /** The accesses that read or call the object, or end it. */
  predicate TouchesObject(pc: Pc) {
    match pc
    case IncStrong(inc) => inc == AddWeakUnit || inc == CallFirstRef
    case DecStrong(dec) => dec != LoadFlags
    case Destroy(_, _) => true
    case IncWeak(viaObject) => viaObject
    case DecWeak(decw) => decw == CallLastWeak
    case Promote(try) => try == AskObject || try == RepeatLastStrong
    case _ => false
  }

  lemma SafeInSituation(m: Memory, w: nat, s: nat, th: Thread, t: nat)
    requires Situation(m, w, s, th, t)
    ensures TouchesImpl(th.pc) ==> m.impl != Done
    ensures TouchesObject(th.pc) ==> m.obj != Done
  {
  }

  /** The actions that access the weakref_impl: a step of a call, or setting mFlags. */
  predicate AccessesImpl(s: State, a: Action) {
    match a
    case Run(t, _) => t < |s.threads| && TouchesImpl(s.threads[t].pc)
    case Client(_, call) => call == ExtendLifetime
    case _ => false
  }

  /** The actions that access the object. */
  predicate AccessesObject(s: State, a: Action) {
    match a
    case Run(t, _) => t < |s.threads| && TouchesObject(s.threads[t].pc)
    case Client(_, call) => call == ExtendLifetime
    case _ => false
  }

  /** No action of any thread in any run touches the impl after it was freed or the object after it ended. */
  lemma MemorySafety(ss: seq<State>, acts: seq<Action>, i: nat)
    requires IsRun(ss, acts) && i < |acts|
    ensures AccessesImpl(ss[i], acts[i]) ==> ss[i].mem.impl != Done
    ensures AccessesObject(ss[i], acts[i]) ==> ss[i].mem.obj != Done
  {
    RunInv(ss, acts, i);
    assert Next(ss[i], acts[i], ss[i + 1]);
    var t, ths := acts[i].t, ss[i].threads;
    InvGivesSituation(ss[i], t);
    SafeInSituation(ss[i].mem, WeakTotal(Others(ths, t)), StrongTotal(Others(ths, t)), ths[t], t);
  }

  // The events that must not happen twice.
  datatype Event = BiasRemoval | FirstRefCall | ObjectEnd | ImplFree

  predicate Performs(s: State, a: Action, e: Event) {
    a.Run? && a.t < |s.threads| &&
    var pc := s.threads[a.t].pc;
    match e
    case BiasRemoval => pc == IncStrong(SubtractBias) || pc == Promote(RemoveBias)
    case FirstRefCall => pc == IncStrong(CallFirstRef)
    case ObjectEnd => pc.Destroy? && pc.dtor == EndObject
    case ImplFree => (pc.Destroy? && pc.dtor == FreeImpl) || pc == DecWeak(DeleteImpl)
  }

  function StageOf(m: Memory, e: Event): Stage {
    match e
    case BiasRemoval => m.bias
    case FirstRefCall => m.first
    case ObjectEnd => m.obj
    case ImplFree => m.impl
  }

  lemma PerformsOnce(s: State, a: Action, e: Event)
    requires Inv(s) && Enabled(s, a) && Performs(s, a, e)
    ensures StageOf(s.mem, e) == Taken(a.t) && StageOf(Apply(s, a).mem, e) == Done
  {
    assert LocalOk(s.mem, Released(s.mem, StrongTotal(s.threads)), s.threads[a.t], a.t);
  }

  /**
   In any run the bias is removed at most once, onFirstRef runs at most once,
   the object ends at most once and the impl is freed at most once.
   */
  lemma AtMostOnce(ss: seq<State>, acts: seq<Action>, i: nat, j: nat, e: Event)
    requires IsRun(ss, acts) && i < j < |acts|
    ensures !(Performs(ss[i], acts[i], e) && Performs(ss[j], acts[j], e))
  {
    if Performs(ss[i], acts[i], e) && Performs(ss[j], acts[j], e) {
      assert Next(ss[i], acts[i], ss[i + 1]) && Next(ss[j], acts[j], ss[j + 1]);
      RunInv(ss, acts, i);
      PerformsOnce(ss[i], acts[i], e);
      RunProgress(ss, acts, i + 1, j);
      RunInv(ss, acts, j);
      PerformsOnce(ss[j], acts[j], e);
    }
  }

  // ---------------------------------------------------------------------------
  // What the counters mean
  // ---------------------------------------------------------------------------

  /** Both counters count references and calls in flight, and neither leaves its int32. */
  lemma CountersCountReferences(ss: seq<State>, acts: seq<Action>, i: nat)
    requires IsRun(ss, acts) && i < |ss|
    ensures var m, ths := ss[i].mem, ss[i].threads;
            && m.mWeak == WeakTotal(ths) <= INT32_MAX
            && m.mStrong == (if m.bias == Done then 0 else INITIAL_STRONG_VALUE) + StrongTotal(ths) <= INT32_MAX
  {
    RunInv(ss, acts, i);
  }

  predicate TakesStrong(s: State, s': State) {
    s'.mem.mStrong == s.mem.mStrong + 1
  }

  lemma StepTakesStrong(s: State, a: Action)
    requires Inv(s) && Enabled(s, a) && Bounded(Apply(s, a)) && s.mem.bias == Pending
    ensures TakesStrong(s, Apply(s, a)) <==> Apply(s, a).mem.bias != Pending
  {
    InvGivesSituation(s, a.t);
    StepInv(s, a);
  }

  /** mStrong has its initial value exactly as long as no strong reference was ever taken. */
  lemma {:induction false} FreshIffNeverTaken(ss: seq<State>, acts: seq<Action>, i: nat)
    requires IsRun(ss, acts) && i < |ss|
    ensures ss[i].mem.mStrong == INITIAL_STRONG_VALUE <==> forall k :: 0 <= k < i ==> !TakesStrong(ss[k], ss[k + 1])
    ensures ss[i].mem.mStrong == INITIAL_STRONG_VALUE <==> ss[i].mem.bias == Pending
  {
    RunInv(ss, acts, i);
    if i > 0 {
      FreshIffNeverTaken(ss, acts, i - 1);
      RunInv(ss, acts, i - 1);
      assert Next(ss[i - 1], acts[i - 1], ss[i]);
      StepInv(ss[i - 1], acts[i - 1]);
      if ss[i - 1].mem.bias == Pending {
        StepTakesStrong(ss[i - 1], acts[i - 1]);
      }
    }
  }

  // ---------------------------------------------------------------------------
  // Lifetimes
  // ---------------------------------------------------------------------------

  /** In strong mode the object starts to end exactly when its last strong unit goes, and the impl goes after it. */
  lemma StrongModeLifetime(ss: seq<State>, acts: seq<Action>, i: nat)
    requires IsRun(ss, acts) && i < |ss| && ss[i].mem.mode == StrongLifetime
    ensures ss[i].mem.obj != Pending <==> ss[i].mem.mStrong == 0
    ensures ss[i].mem.impl == Done ==> ss[i].mem.obj == Done && ss[i].mem.mWeak == 0
  {
    RunInv(ss, acts, i);
    var m, ths := ss[i].mem, ss[i].threads;
    StrongWithinWeak(ths);
    if m.obj.Taken? {
      var u := m.obj.thread;
      assert LocalOk(m, Released(m, StrongTotal(ths)), ths[u], u);
      TotalSplit(ths, u, ths[u]);
      assert ths[u := ths[u]] == ths;
    }
  }

  /** In weak mode both allocations start to go together, exactly when the last weak unit goes. */
  lemma WeakModeLifetime(ss: seq<State>, acts: seq<Action>, i: nat)
    requires IsRun(ss, acts) && i < |ss| && ss[i].mem.mode == WeakLifetime
    ensures ss[i].mem.obj != Pending <==> ss[i].mem.impl != Pending
    ensures ss[i].mem.raw == NoRaw ==> (ss[i].mem.obj != Pending <==> ss[i].mem.mWeak == 0)
    ensures ss[i].mem.obj == Done ==> ss[i].mem.impl == Done
  {
    RunInv(ss, acts, i);
    var m, ths := ss[i].mem, ss[i].threads;
    if m.impl.Taken? {
      assert LocalOk(m, Released(m, StrongTotal(ths)), ths[m.impl.thread], m.impl.thread);
    }
  }

  lemma IdleHasNoDuty(s: State, t: nat)
    requires Inv(s) && t < |s.threads| && s.threads[t].pc == Idle
    ensures s.mem.obj != Taken(t) && s.mem.impl != Taken(t)
  {
    assert LocalOk(s.mem, Released(s.mem, StrongTotal(s.threads)), s.threads[t], t);
  }

  /**
   When every reference is gone and every call has returned, both allocations
   are gone too, unless the object kept strong lifetime and was never strongly
   referenced: that one leaks, as decWeak's log message says.
   */
  lemma NothingLeaks(ss: seq<State>, acts: seq<Action>, i: nat)
    requires IsRun(ss, acts) && i < |ss| && ss[i].mem.raw == NoRaw
    requires forall t :: 0 <= t < |ss[i].threads| ==> Blank(ss[i].threads[t])
    ensures var m := ss[i].mem;
            (m.obj == Done && m.impl == Done) <==> !(m.mode == StrongLifetime && m.mStrong == INITIAL_STRONG_VALUE)
  {
    RunInv(ss, acts, i);
    var m, ths := ss[i].mem, ss[i].threads;
    TotalBlank(ths);
    if m.obj.Taken? {
      IdleHasNoDuty(ss[i], m.obj.thread);
    }
    if m.impl.Taken? {
      IdleHasNoDuty(ss[i], m.impl.thread);
    }
  }

  // ---------------------------------------------------------------------------
  // Promotion as one action
  // ---------------------------------------------------------------------------

  /** How an access of a promotion from `th` to `th'` may end it; `n` is the total of strong units after it. */
  predicate PromotionEnds(m: Memory, th: Thread, th': Thread, n: nat, choice: bool) {
    // not yet
    || th'.pc.Promote?
    // true: one more strong reference, on an object that is not ending
    || (th'.pc == Idle && th'.ok && th'.strong == th.strong + 1 && m.obj == Pending && m.impl == Pending)
    // false: the object refused (weak mode), or the count was seen at zero (strong mode)
    || (th'.pc == DecWeak(SubWeakUnit) && !th'.ok && th'.strong == th.strong
        && if m.mode == WeakLifetime then th.pc == Promote(AskObject) && !choice
           else Released(m, n) && m.mStrong == 0)
  }

  lemma PromotionStepEnds(m: Memory, w: nat, s: nat, th: Thread, t: nat, pc: PromotePc, choice: bool)
    requires th.pc == Promote(pc) && Situation(m, w, s, th, t)
    ensures var (m', th') := ExecPromote(m, th, t, pc, choice);
            PromotionEnds(m', th, th', s + StrongUnits(th'), choice)
  {
    ExecKeeps(m, w, s, th, t, choice);
  }

  /** Every attemptIncStrong, in every run, ends in one of the ways above. */
  lemma PromotionOutcome(ss: seq<State>, acts: seq<Action>, i: nat)
    requires IsRun(ss, acts) && i < |acts| && acts[i].Run?
    ensures acts[i].t < |ss[i].threads| && acts[i].t < |ss[i + 1].threads|
    ensures var th, th' := ss[i].threads[acts[i].t], ss[i + 1].threads[acts[i].t];
            th.pc.Promote? ==> PromotionEnds(ss[i + 1].mem, th, th', StrongTotal(ss[i + 1].threads), acts[i].choice)
  {
    RunInv(ss, acts, i);
    assert Next(ss[i], acts[i], ss[i + 1]);
    var t, ths, ths' := acts[i].t, ss[i].threads, ss[i + 1].threads;
    InvGivesSituation(ss[i], t);
    if ths[t].pc.Promote? {
      TotalSplit(ths, t, ths'[t]);
      PromotionStepEnds(ss[i].mem, WeakTotal(Others(ths, t)), StrongTotal(Others(ths, t)),
                        ths[t], t, ths[t].pc.try, acts[i].choice);
    }
  }

  /** Once lost in strong mode, an object never comes back. */
  lemma LostStaysLost(ss: seq<State>, acts: seq<Action>, i: nat, j: nat)
    requires IsRun(ss, acts) && i <= j < |ss| && LostForGood(ss[i])
    ensures ss[j].mem.mStrong == 0 && ss[j].mem.mode == StrongLifetime && ss[j].mem.obj != Pending
  {
    RunProgress(ss, acts, i, j);
    RunInv(ss, acts, j);
  }

  /** attemptIncWeak by a caller that holds a reference never fails. */
  lemma ProbeSucceeds(ss: seq<State>, acts: seq<Action>, i: nat)
    requires IsRun(ss, acts) && i < |acts| && acts[i].Run?
    ensures acts[i].t < |ss[i].threads| && acts[i].t < |ss[i + 1].threads|
    ensures var th, th' := ss[i].threads[acts[i].t], ss[i + 1].threads[acts[i].t];
            th.pc.Probe? ==> th'.pc.Probe? || (th'.pc == Idle && th'.ok && th'.weak == th.weak + 1)
  {
    RunInv(ss, acts, i);
    assert Next(ss[i], acts[i], ss[i + 1]);
    InvGivesSituation(ss[i], acts[i].t);
  }
}
