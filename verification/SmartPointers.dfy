/**
 sp and wp over one thread: the calls of RefBase.cpp run to their end, as the
 methods of an object with its counters, and the smart pointers of
 StrongPointer.h and RefBase.h that make them. Module RefBase has the same calls
 interleaved with each other.
 */
module SmartPointers {
  import RefBase

  const INITIAL_STRONG_VALUE := RefBase.INITIAL_STRONG_VALUE

  /** A RefBase object with its weakref_impl, and which of the two has not been freed. */
  class Counted {
    var mStrong: int
    var mWeak: int
    var weakLifetime: bool
    var objectLives: bool
    var implLives: bool

    constructor ()
      ensures Counts(0, 0) && objectLives && implLives && !weakLifetime && mStrong == INITIAL_STRONG_VALUE
    {
      mStrong, mWeak, weakLifetime := INITIAL_STRONG_VALUE, 0, false;
      objectLives, implLives := true, true;
    }

    /** The counters stand for `s` strong and `w` weak references, and nothing is freed too early or too late. */
    ghost predicate Counts(s: nat, w: nat)
      reads this
    {
      && s < INITIAL_STRONG_VALUE && mWeak == s + w
      && (mStrong == s || (mStrong == INITIAL_STRONG_VALUE && s == 0))
      && (if weakLifetime then
            objectLives == implLives && (mWeak > 0 ==> objectLives)
          else
            && (objectLives <==> mStrong != 0)
            && (implLives <==> objectLives || mWeak > 0))
    }

    /** extendObjectLifetime, before the object is referenced. */
    method ExtendObjectLifetime()
      requires Counts(0, 0) && objectLives && mStrong == INITIAL_STRONG_VALUE
      modifies this`weakLifetime
      ensures Counts(0, 0) && weakLifetime
    {
      weakLifetime := true;
    }

    method IncWeak(ghost s: nat, ghost w: nat)
      requires implLives && Counts(s, w)
      requires s + w > 0 || objectLives
      modifies this`mWeak
      ensures Counts(s, w + 1)
    {
      mWeak := mWeak + 1;
    }

    /** The destructor: in the weak lifetime it frees the impl with the object. */
    method Destructor()
      requires objectLives && implLives
      modifies this`objectLives, this`implLives
      ensures !objectLives && implLives == !(weakLifetime && mWeak == 0)
    {
      if weakLifetime {
        if mWeak == 0 {
          DeleteImpl();
        }
      }
      objectLives := false;
    }

    method DeleteImpl()
      requires implLives
      modifies this`implLives
      ensures !implLives
    {
      implLives := false;
    }

    /** decWeak: giving back a unit of mWeak, when `s` strong and `w` weak references have theirs besides. */
    method DecWeak(ghost s: nat, ghost w: nat)
      requires implLives && mWeak == s + w + 1 && s < INITIAL_STRONG_VALUE
      requires mStrong == s || (mStrong == INITIAL_STRONG_VALUE && s == 0)
      requires if weakLifetime then objectLives else objectLives <==> mStrong != 0
      modifies this`mWeak, this`objectLives, this`implLives
      ensures Counts(s, w)
      ensures objectLives == (old(objectLives) && !(weakLifetime && s + w == 0))
    {
      var c := mWeak;
      mWeak := mWeak - 1;
      if c != 1 {
        return;
      }
      if !weakLifetime {
        if mStrong == INITIAL_STRONG_VALUE {
          // The object lost its last weak reference before it had a strong one.
        } else {
          DeleteImpl();
        }
      } else {
        Destructor();
      }
    }

    /** incStrong; `first` is whether it calls onFirstRef. */
    method IncStrong(ghost s: nat, ghost w: nat) returns (first: bool)
      requires Counts(s, w) && objectLives && s + 1 < INITIAL_STRONG_VALUE
      modifies this`mWeak, this`mStrong
      ensures Counts(s + 1, w) && mStrong == s + 1
      ensures first <==> old(mStrong) == INITIAL_STRONG_VALUE
    {
      mWeak := mWeak + 1;
      var c := mStrong;
      mStrong := mStrong + 1;
      if c != INITIAL_STRONG_VALUE {
        return false;
      }
      mStrong := mStrong - INITIAL_STRONG_VALUE;
      return true;
    }

    /** decStrong: the object goes with its last strong reference, or in the weak lifetime with its last of any kind. */
    method DecStrong(ghost s: nat, ghost w: nat)
      requires Counts(s, w) && s > 0
      modifies this`mWeak, this`mStrong, this`objectLives, this`implLives
      ensures Counts(s - 1, w) && mStrong == s - 1
      ensures objectLives == if weakLifetime then s - 1 + w > 0 else s - 1 > 0
    {
      var c := mStrong;
      mStrong := mStrong - 1;
      if c == 1 {
        if !weakLifetime {
          Destructor();
        }
      }
      DecWeak(s - 1, w);
    }

    /** compare_exchange that does not fail spuriously. */
    method CompareExchange(expected: int, desired: int) returns (ok: bool, cur: int)
      modifies this`mStrong
      ensures ok <==> old(mStrong) == expected
      ensures mStrong == if ok then desired else old(mStrong)
      ensures cur == old(mStrong)
    {
      cur := mStrong;
      ok := mStrong == expected;
      if ok {
        mStrong := desired;
      }
    }

    /**
     attemptIncStrong; `agrees` is the answer of onIncStrongAttempted. A count that others
     raised between the two reads of the weak lifetime, which repeats onLastStrongRef, needs
     another thread: module RefBase has that step.
     */
    method AttemptIncStrong(ghost s: nat, ghost w: nat, agrees: bool) returns (ok: bool)
      requires Counts(s, w) && w > 0 && s + 1 < INITIAL_STRONG_VALUE
      modifies this`mWeak, this`mStrong, this`objectLives, this`implLives
      ensures ok <==> if weakLifetime then s > 0 || agrees else old(objectLives)
      ensures ok ==> Counts(s + 1, w) && mStrong == s + 1 && objectLives
      ensures !ok ==> Counts(s, w) && mStrong == old(mStrong) && objectLives == old(objectLives)
    {
      mWeak := mWeak + 1;
      var cur := mStrong;
      var done := false;
      while !done && cur > 0 && cur != INITIAL_STRONG_VALUE
        invariant cur == old(mStrong) && mWeak == s + w + 1
        invariant mStrong == if done then cur + 1 else cur
        invariant done ==> cur > 0 && cur != INITIAL_STRONG_VALUE
        modifies this`mStrong
        decreases !done
      {
        done, cur := CompareExchange(cur, cur + 1);
      }
      if cur <= 0 || cur == INITIAL_STRONG_VALUE {
        if !weakLifetime {
          if cur <= 0 {
            DecWeak(s, w);
            return false;
          }
          done := false;
          while !done && cur > 0
            invariant cur == INITIAL_STRONG_VALUE == old(mStrong) && mWeak == s + w + 1
            invariant mStrong == if done then cur + 1 else cur
            modifies this`mStrong
            decreases !done
          {
            done, cur := CompareExchange(cur, cur + 1);
          }
        } else {
          if !agrees {
            DecWeak(s, w);
            return false;
          }
          cur := mStrong;
          mStrong := mStrong + 1;
        }
      }
      if cur == INITIAL_STRONG_VALUE {
        mStrong := mStrong - INITIAL_STRONG_VALUE;
      }
      return true;
    }
  }

  /** How many of the pointers point to `o`. */
  ghost function Pointing(ps: seq<Counted?>, o: Counted): (n: nat)
    ensures n <= |ps|
  {
    if ps == [] then 0 else (if ps[0] == o then 1 else 0) + Pointing(ps[1..], o)
  }

  lemma {:induction false} PointingAfterUpdate(ps: seq<Counted?>, i: nat, p: Counted?, o: Counted)
    requires i < |ps|
    ensures Pointing(ps[i := p], o) == Pointing(ps, o) - (if ps[i] == o then 1 else 0) + if p == o then 1 else 0
    ensures ps[i] == o ==> Pointing(ps, o) > 0
  {
    if i == 0 {
      assert ps[0 := p][1..] == ps[1..];
    } else {
      assert ps[i := p][1..] == ps[1..][i - 1 := p];
      PointingAfterUpdate(ps[1..], i - 1, p, o);
    }
  }

  lemma {:induction false} NobodyPoints(ps: seq<Counted?>, o: Counted)
    requires o !in ps
    ensures Pointing(ps, o) == 0
  {
    if ps != [] {
      NobodyPoints(ps[1..], o);
    }
  }

  /**
   Some sp and wp variables; one that is null, or not constructed, or destroyed, is
   null here. Objects are made outside, and their raw pointers are used only while
   the object lives.
   */
  class Pointers {
    var sps: seq<Counted?>
    var wps: seq<Counted?>
    ghost var objects: set<Counted>

    /** Every object is counted by exactly the pointers that point to it. */
    ghost predicate Balanced()
      reads this, objects
    {
      && |sps| + 1 < INITIAL_STRONG_VALUE
      && (forall i :: 0 <= i < |sps| && sps[i] != null ==> sps[i] in objects)
      && (forall i :: 0 <= i < |wps| && wps[i] != null ==> wps[i] in objects)
      && forall o :: o in objects ==> o.Counts(Pointing(sps, o), Pointing(wps, o))
    }

    /** Variables that point nowhere. */
    constructor (strong: nat, weak: nat)
      requires strong + 1 < INITIAL_STRONG_VALUE
      ensures Balanced() && sps == seq(strong, _ => null) && wps == seq(weak, _ => null) && objects == {}
    {
      sps, wps, objects := seq(strong, _ => null), seq(weak, _ => null), {};
    }

    /** A new object, of either lifetime. */
    method Create(weakLifetime: bool) returns (o: Counted)
      requires Balanced()
      modifies this`objects
      ensures Balanced() && fresh(o) && objects == old(objects) + {o}
      ensures o.objectLives && o.weakLifetime == weakLifetime && o.mStrong == INITIAL_STRONG_VALUE
    {
      o := new Counted();
      if weakLifetime {
        o.ExtendObjectLifetime();
      }
      NobodyPoints(sps, o);
      NobodyPoints(wps, o);
      objects := objects + {o};
    }

    /** Whether an object that was referenced has a reference that keeps it. */
    ghost predicate StillHeld(o: Counted)
      reads this, o
    {
      Pointing(sps, o) > 0 || (o.weakLifetime && Pointing(wps, o) > 0)
    }

    /** An object with a pointer that keeps it lives; one that was referenced strongly lives no longer than that. */
    lemma LivesWhileHeld(o: Counted)
      requires Balanced() && o in objects
      ensures StillHeld(o) ==> o.objectLives && o.implLives
      ensures Pointing(wps, o) > 0 ==> o.implLives
      ensures !o.weakLifetime && o.mStrong != INITIAL_STRONG_VALUE ==> (o.objectLives <==> StillHeld(o))
    {
    }

    /** Every object is counted by exactly these strong pointers, and the weak ones there are. */
    ghost predicate CountedBy(ps: seq<Counted?>)
      reads this, objects
    {
      forall o :: o in objects ==> o.Counts(Pointing(ps, o), Pointing(wps, o))
    }

    /** To every object but `p` the same number of pointers point, and to `p` one more of `qs`. */
    ghost predicate OneMore(ps: seq<Counted?>, qs: seq<Counted?>, p: Counted?)
      reads this`objects
    {
      forall o :: o in objects ==> Pointing(qs, o) == Pointing(ps, o) + if o == p then 1 else 0
    }

    lemma PointingAfterAll(i: nat, p: Counted?)
      requires i < |sps|
      ensures OneMore(sps, [p] + sps, p)
      ensures OneMore(sps[i := p], [p] + sps, sps[i])
    {
      forall o | o in objects
        ensures Pointing([p] + sps, o) == Pointing(sps, o) + if o == p then 1 else 0
        ensures Pointing([p] + sps, o) == Pointing(sps[i := p], o) + if o == sps[i] then 1 else 0
      {
        assert ([p] + sps)[1..] == sps;
        PointingAfterUpdate(sps, i, p, o);
      }
    }

    /** One more strong reference to an object, if there is one. */
    method Acquire(o: Counted?, ghost ps: seq<Counted?>, ghost qs: seq<Counted?>)
      requires CountedBy(ps) && OneMore(ps, qs, o) && |ps| + 1 < INITIAL_STRONG_VALUE
      requires o != null ==> o in objects && o.objectLives
      modifies objects
      ensures CountedBy(qs)
      ensures forall x :: x in objects ==> x.objectLives == old(x.objectLives)
    {
      if o != null {
        var _ := o.IncStrong(Pointing(ps, o), Pointing(wps, o));
      }
    }

    /** One strong reference less: the object goes unless one of the other pointers keeps it. */
    method Release(o: Counted?, ghost ps: seq<Counted?>, ghost qs: seq<Counted?>)
      requires CountedBy(ps) && OneMore(qs, ps, o) && (o != null ==> o in objects)
      modifies objects
      ensures CountedBy(qs)
      ensures o != null ==> o.objectLives == (Pointing(qs, o) > 0 || (o.weakLifetime && Pointing(wps, o) > 0))
      ensures forall x :: x in objects && x != o ==> x.objectLives == old(x.objectLives)
    {
      if o != null {
        o.DecStrong(Pointing(ps, o), Pointing(wps, o));
      }
    }

    /** sp(T*) and sp(const sp&), into a variable that held nothing. */
    method ConstructSp(i: nat, other: Counted?)
      requires Balanced() && i < |sps| && sps[i] == null
      requires other != null ==> other in objects && other.objectLives
      modifies this`sps, objects
      ensures Balanced() && sps == old(sps)[i := other]
      ensures forall o :: o in objects ==> o.objectLives == old(o.objectLives)
    {
      PointingAfterAll(i, other);
      Acquire(other, sps, sps[i := other]);
      sps := sps[i := other];
    }

    /**
     Assignment from a pointer that keeps its object alive meanwhile, perhaps this very
     one: the new object is referenced before the old one is let go.
     */
    method AssignSp(i: nat, other: Counted?)
      requires Balanced() && i < |sps|
      requires other != null ==> other in objects && other.objectLives
      modifies this`sps, objects
      ensures Balanced() && sps == old(sps)[i := other]
      ensures other != null ==> other.objectLives
      ensures old(sps[i]) != null ==> old(sps[i]).objectLives == StillHeld(old(sps[i]))
      ensures forall o :: o in objects && o != old(sps[i]) ==> o.objectLives == old(o.objectLives)
    {
      PointingAfterAll(i, other);
      var oldPtr := sps[i];
      Acquire(other, sps, [other] + sps);
      Release(oldPtr, [other] + sps, sps[i := other]);
      sps := sps[i := other];
      if other != null {
        PointingAfterUpdate(sps, i, other, other);
      }
    }

    /** clear, and the destructor. */
    method ClearSp(i: nat)
      requires Balanced() && i < |sps|
      modifies this`sps, objects
      ensures Balanced() && sps == old(sps)[i := null]
      ensures old(sps[i]) != null ==> old(sps[i]).objectLives == StillHeld(old(sps[i]))
      ensures forall o :: o in objects && o != old(sps[i]) ==> o.objectLives == old(o.objectLives)
    {
      PointingAfterAll(i, null);
      var oldPtr := sps[i];
      Release(oldPtr, sps, sps[i := null]);
      sps := sps[i := null];
    }

    lemma PointingWeaklyAfterAll(i: nat, p: Counted?)
      requires i < |wps|
      ensures forall o :: o in objects ==>
        Pointing(wps[i := p], o) == Pointing(wps, o) - (if wps[i] == o then 1 else 0) + if p == o then 1 else 0
      ensures wps[i] != null ==> Pointing(wps, wps[i]) > 0
    {
      forall o | o in objects
        ensures Pointing(wps[i := p], o) == Pointing(wps, o) - (if wps[i] == o then 1 else 0) + if p == o then 1 else 0
      {
        PointingAfterUpdate(wps, i, p, o);
      }
      if wps[i] != null {
        PointingAfterUpdate(wps, i, p, wps[i]);
      }
    }

    /** wp(T*) and wp(const sp&), by creatWeak. */
    method ConstructWp(i: nat, other: Counted?)
      requires Balanced() && i < |wps| && wps[i] == null
      requires other != null ==> other in objects && other.objectLives
      modifies this`wps, objects
      ensures Balanced() && wps == old(wps)[i := other]
      ensures forall o :: o in objects ==> o.objectLives == old(o.objectLives)
    {
      PointingWeaklyAfterAll(i, other);
      if other != null {
        other.IncWeak(Pointing(sps, other), Pointing(wps, other));
      }
      wps := wps[i := other];
    }

    /** wp(const wp&): the object may be gone. */
    method CopyWp(i: nat, j: nat)
      requires Balanced() && i < |wps| && j < |wps| && wps[i] == null
      modifies this`wps, objects
      ensures Balanced() && wps == old(wps)[i := old(wps[j])]
      ensures forall o :: o in objects ==> o.objectLives == old(o.objectLives)
    {
      PointingWeaklyAfterAll(i, wps[j]);
      PointingWeaklyAfterAll(j, null);
      var other := wps[j];
      if other != null {
        other.IncWeak(Pointing(sps, other), Pointing(wps, other));
      }
      wps := wps[i := other];
    }

    /** ~wp. */
    method DestroyWp(i: nat)
      requires Balanced() && i < |wps|
      modifies this`wps, objects
      ensures Balanced() && wps == old(wps)[i := null]
      ensures forall o :: o in objects ==>
        o.objectLives == (old(o.objectLives) && !(o == old(wps[i]) && o.weakLifetime && !StillHeld(o)))
    {
      PointingWeaklyAfterAll(i, null);
      var other := wps[i];
      if other != null {
        other.DecWeak(Pointing(sps, other), Pointing(wps, other) - 1);
      }
      wps := wps[i := null];
    }

    /** promote, into a null sp: a reference to the object if it lives, and nothing otherwise. */
    method Promote(i: nat, j: nat, agrees: bool)
      requires Balanced() && i < |sps| && sps[i] == null && j < |wps|
      modifies this`sps, objects
      ensures Balanced() && |sps| == |old(sps)| && sps == old(sps)[i := sps[i]]
      ensures sps[i] != null ==> sps[i] == wps[j] && sps[i].objectLives
      ensures wps[j] != null ==> (sps[i] != null <==>
        if wps[j].weakLifetime then old(Pointing(sps, wps[j])) > 0 || agrees else old(wps[j].objectLives))
      ensures forall o :: o in objects ==> o.objectLives == old(o.objectLives)
    {
      var other := wps[j];
      PointingAfterAll(i, other);
      PointingWeaklyAfterAll(j, null);
      if other != null {
        var ok := other.AttemptIncStrong(Pointing(sps, other), Pointing(wps, other), agrees);
        if ok {
          sps := sps[i := other];
        }
      }
    }
  }
}
