/**
 All the parcels of a process, whatever calls are made on them, in whatever order.
 As long as no buffer is taken over without its release function, the global size
 of Parcel.cpp is the sum of the capacities of the buffers that parcels hold of
 their own.
 */
module ParcelProcess {
  import opened ParcelData
  import opened ParcelStorage
  import opened Sums

  datatype Call =
    | Write(data: seq<bv8>)
    | WriteInt32(val: bv32)
    | SetDataSize(size: nat)
    | SetDataPosition(pos: nat)
    | Reference(buffer: array<bv8>, release: bool)

  // ---------------------------------------------------------------------------
  // Calls on one parcel
  // ---------------------------------------------------------------------------

  function After(p: Place, call: Call, mallocWorks: bool): Place {
    match call
    case Write(data) => if p.Writable(|data|, mallocWorks) then p.Written(PadSize(|data|)) else p
    case WriteInt32(_) => if p.MakesRoom(4, mallocWorks) then p.Written(4) else p
    case SetDataSize(size) => p.Resized(size, mallocWorks)
    case SetDataPosition(pos) => p.(pos := pos)
    case Reference(buffer, release) => Place(true, release, buffer.Length, buffer.Length, p.pos)
  }

  /** What a call asks of its caller: a write that stays in the buffer, and sizes that there are. */
  predicate MayCall(p: Place, call: Call, mallocWorks: bool) {
    match call
    case Write(data) => p.Writable(|data|, mallocWorks) ==> p.InBounds(PadSize(|data|))
    case WriteInt32(_) => p.MakesRoom(4, mallocWorks) ==> p.InBounds(4)
    case SetDataSize(_) => true
    case SetDataPosition(pos) => pos <= SIZE_MAX
    case Reference(buffer, _) => buffer.Length <= PTRDIFF_MAX
  }

  /** The contents after a call other than Reference; `gap` is what lay between them and the position. */
  predicate Changed(bytes: seq<bv8>, p: Place, call: Call, mallocWorks: bool, gap: seq<bv8>, now: seq<bv8>) {
    match call
    case Write(data) =>
      if p.Writable(|data|, mallocWorks) then
        && IsGap(bytes, p.Roomy(PadSize(|data|)).pos, gap)
        && now == Finished(bytes, gap, p.Roomy(PadSize(|data|)).pos, Padded(data))
      else now == bytes
    case WriteInt32(val) =>
      if p.MakesRoom(4, mallocWorks) then
        IsGap(bytes, p.Roomy(4).pos, gap) && now == Finished(bytes, gap, p.Roomy(4).pos, Int32Bytes(val))
      else now == bytes
    case SetDataSize(size) =>
      if p.Continues(size, mallocWorks) then
        |now| == size && now[..Min(|bytes|, size)] == bytes[..Min(|bytes|, size)]
      else now == bytes
    case _ => now == bytes
  }

  /** The call sets the position, or the size under it, so that the position is no further than the size. */
  predicate Tame(p: Place, call: Call, mallocWorks: bool) {
    match call
    case SetDataSize(size) => p.owner && size != 0 && p.Continues(size, mallocWorks) ==> p.pos <= size
    case SetDataPosition(pos) => pos <= p.size
    case Reference(buffer, _) => p.pos <= buffer.Length
    case _ => true
  }

  /**
   Writes are allowed wherever the position is no further than the size, and every call
   keeps it there but those that set one of the two amiss. On a parcel without an owner
   that is only setDataPosition.
   */
  lemma PlacedExactly(p: Place, call: Call, mallocWorks: bool)
    requires p.Valid() && p.Placed()
    ensures !call.SetDataPosition? && !call.Reference? ==> MayCall(p, call, mallocWorks)
    ensures After(p, call, mallocWorks).Placed() <==> Tame(p, call, mallocWorks)
    ensures !p.owner && !call.SetDataPosition? && !call.Reference? ==> Tame(p, call, mallocWorks)
  {
    match call
    case Write(data) => PlacedAllows(p, |data|, mallocWorks);
    case WriteInt32(_) => PlacedAllows(p, 4, mallocWorks);
    case _ =>
  }

  /** A run of calls on one parcel, from its construction: where it stands before and after each. */
  ghost predicate IsRun(ps: seq<Place>, calls: seq<Call>, works: seq<bool>) {
    && |ps| == |calls| + 1 && |works| == |calls|
    && ps[0] == Place(false, false, 0, 0, 0)
    && forall i :: 0 <= i < |calls| ==> ps[i + 1] == After(ps[i], calls[i], works[i])
  }

  /**
   In a run whose positions are set no further than the size, position <= size <= capacity
   holds throughout, and every write stays in the buffer.
   */
  lemma {:induction false} PlacedThroughout(ps: seq<Place>, calls: seq<Call>, works: seq<bool>, n: nat)
    requires IsRun(ps, calls, works) && n < |ps|
    requires forall i :: 0 <= i < n ==> Tame(ps[i], calls[i], works[i])
    requires forall i :: 0 <= i < |calls| && calls[i].Reference? ==> calls[i].buffer.Length <= PTRDIFF_MAX
    ensures ps[n].Valid() && ps[n].pos <= ps[n].size <= ps[n].cap
    ensures n < |calls| && (calls[n].Write? || calls[n].WriteInt32?) ==> MayCall(ps[n], calls[n], works[n])
  {
    if n > 0 {
      PlacedThroughout(ps, calls, works, n - 1);
      TameKeepsValid(ps[n - 1], calls[n - 1], works[n - 1]);
    }
    if n < |calls| {
      PlacedExactly(ps[n], calls[n], works[n]);
    }
  }

  lemma TameKeepsValid(p: Place, call: Call, mallocWorks: bool)
    requires p.Valid() && p.Placed() && Tame(p, call, mallocWorks)
    requires call.Reference? ==> call.buffer.Length <= PTRDIFF_MAX
    ensures After(p, call, mallocWorks).Valid() && After(p, call, mallocWorks).Placed()
  {
    PlacedExactly(p, call, mallocWorks);
    match call
    case Write(data) =>
      if p.Writable(|data|, mallocWorks) {
        PadSizeRoundsUp(|data|);
        PlacedWritesAreInBounds(p, PadSize(|data|), mallocWorks);
      }
    case WriteInt32(_) =>
      if p.MakesRoom(4, mallocWorks) {
        PlacedWritesAreInBounds(p, 4, mallocWorks);
      }
    case _ =>
  }

  // ---------------------------------------------------------------------------
  // All parcels
  // ---------------------------------------------------------------------------

  class Process {
    const stats: AllocStats
    var parcels: seq<Parcel>

    /** Parcels are different objects with different buffers. */
    ghost predicate Separate()
      reads this, parcels
    {
      && (forall i, j :: 0 <= i < j < |parcels| ==> parcels[i] != parcels[j])
      && (forall i, j :: 0 <= i < j < |parcels| ==> parcels[i].mData == null || parcels[i].mData != parcels[j].mData)
    }

    ghost predicate Valid()
      reads this, parcels
    {
      Separate() && forall i :: 0 <= i < |parcels| ==> parcels[i].Valid()
    }

    ghost function Places(): (ps: seq<Place>)
      reads this, parcels
      ensures |ps| == |parcels| && forall i :: 0 <= i < |ps| ==> ps[i] == parcels[i].Where()
    {
      seq(|parcels|, i requires 0 <= i < |parcels| reads this, parcels => parcels[i].Where())
    }

    /** The global size is what parcels hold of their own. */
    ghost predicate Conserved()
      reads this, stats, parcels
    {
      stats.size == Sum(Charges(Places()))
    }

    /** A call on a parcel, and the use of a buffer that no other parcel has. */
    ghost predicate Allowed(i: nat, call: Call, mallocWorks: bool)
      reads this, parcels
    {
      && i < |parcels| && MayCall(parcels[i].Where(), call, mallocWorks)
      && (call.Reference? ==> forall j :: 0 <= j < |parcels| && j != i ==> parcels[j].mData != call.buffer)
    }

    constructor ()
      ensures Valid() && Conserved() && parcels == []
    {
      stats := new AllocStats();
      parcels := [];
    }

    /** A new parcel. */
    method Create()
      requires Valid()
      modifies this`parcels
      ensures Valid() && |parcels| == |old(parcels)| + 1 && parcels[..|old(parcels)|] == old(parcels)
      ensures fresh(parcels[|old(parcels)|])
      ensures Places() == old(Places()) + [Place(false, false, 0, 0, 0)]
      ensures Conserved() <==> old(Conserved())
    {
      ghost var places := Places();
      var p := new Parcel();
      parcels := parcels + [p];
      assert Places() == places + [p.Where()];
      assert Charges(Places()) == Charges(places) + [0];
      SumOfAppend(Charges(places), 0);
    }

    /** So freeDataNoInit never finds a total too small to subtract from. */
    lemma ClampIsNotTaken(i: nat)
      requires Conserved() && i < |parcels|
      ensures parcels[i].Charge() <= stats.size
    {
      SumOfUpdate(Charges(Places()), i, 0);
    }

    /** Any call on any parcel changes that parcel alone. */
    method Touch(i: nat, call: Call, mallocWorks: bool) returns (err: int, ghost gap: seq<bv8>)
      requires Valid() && Allowed(i, call, mallocWorks)
      modifies stats, parcels[i], parcels[i].Memory()
      ensures Valid()
      ensures Places() == old(Places())[i := After(old(Places())[i], call, mallocWorks)]
      ensures if call.Reference? then parcels[i].Bytes() == call.buffer[..]
              else Changed(old(parcels[i].Bytes()), old(Places())[i], call, mallocWorks, gap, parcels[i].Bytes())
      ensures forall j :: 0 <= j < |parcels| && j != i ==> parcels[j].Bytes() == old(parcels[j].Bytes())
      ensures TotalMoves(call, stats.size, Places()[i].Charge(), old(stats.size), old(Places())[i].Charge())
    {
      var p := parcels[i];
      assert forall j :: 0 <= j < |parcels| && j != i ==> parcels[j] != p;
      err, gap := Make(p, stats, call, mallocWorks);
      assert forall j :: 0 <= j < |parcels| && j != i ==>
        parcels[j].Where() == old(parcels[j].Where()) && parcels[j].mData == old(parcels[j].mData);
    }

    /**
     Any call keeps the total, except exactly if it takes over some bytes without a release
     function, and it keeps all positions no further than the sizes exactly if it is tame.
     */
    method Do(i: nat, call: Call, mallocWorks: bool) returns (err: int, ghost gap: seq<bv8>)
      requires Valid() && Allowed(i, call, mallocWorks)
      modifies stats, parcels[i], parcels[i].Memory()
      ensures Valid()
      ensures Places() == old(Places())[i := After(old(Places())[i], call, mallocWorks)]
      ensures if call.Reference? then parcels[i].Bytes() == call.buffer[..]
              else Changed(old(parcels[i].Bytes()), old(Places())[i], call, mallocWorks, gap, parcels[i].Bytes())
      ensures forall j :: 0 <= j < |parcels| && j != i ==> parcels[j].Bytes() == old(parcels[j].Bytes())
      ensures old(Conserved()) ==> (Conserved() <==> KeepsTotal(call))
      ensures AllPlaced(old(Places())) ==> (AllPlaced(Places()) <==> Tame(old(Places())[i], call, mallocWorks))
    {
      ghost var places, wasSize := Places(), stats.size;
      err, gap := Touch(i, call, mallocWorks);
      CallKeeps(places, i, call, mallocWorks, wasSize, stats.size);
    }
  }

  function Charges(ps: seq<Place>): (cs: seq<nat>)
    ensures |cs| == |ps| && forall i :: 0 <= i < |cs| ==> cs[i] == ps[i].Charge()
  {
    seq(|ps|, i requires 0 <= i < |ps| => ps[i].Charge())
  }

  /** No position is further than the size. */
  predicate AllPlaced(ps: seq<Place>) {
    forall i :: 0 <= i < |ps| ==> ps[i].Placed()
  }

  /** A buffer without a release function is counted with the parcel's own, but never added. */
  predicate KeepsTotal(call: Call) {
    call.Reference? && !call.release ==> call.buffer.Length == 0
  }

  /** How a call moves the global size with the parcel's share. */
  predicate TotalMoves(call: Call, size: nat, charge: nat, wasSize: nat, wasCharge: nat) {
    if call.Reference? then
      size == if wasCharge <= wasSize then wasSize - wasCharge else 0
    else size - charge == wasSize - wasCharge
  }

  lemma CallKeeps(ps: seq<Place>, i: nat, call: Call, mallocWorks: bool, wasSize: nat, size: nat)
    requires i < |ps| && ps[i].Valid()
    requires TotalMoves(call, size, After(ps[i], call, mallocWorks).Charge(), wasSize, ps[i].Charge())
    ensures var now := ps[i := After(ps[i], call, mallocWorks)];
            && (wasSize == Sum(Charges(ps)) ==> (size == Sum(Charges(now)) <==> KeepsTotal(call)))
            && (AllPlaced(ps) ==> (AllPlaced(now) <==> Tame(ps[i], call, mallocWorks)))
  {
    var q := After(ps[i], call, mallocWorks);
    assert Charges(ps[i := q]) == Charges(ps)[i := q.Charge()];
    SumOfUpdate(Charges(ps), i, q.Charge());
    if AllPlaced(ps) {
      PlacedExactly(ps[i], call, mallocWorks);
      assert AllPlaced(ps[i := q]) ==> ps[i := q][i].Placed();
    }
  }

  /** One call on one parcel. */
  method Make(p: Parcel, stats: AllocStats, call: Call, mallocWorks: bool) returns (err: int, ghost gap: seq<bv8>)
    requires p.Valid() && MayCall(p.Where(), call, mallocWorks)
    modifies stats, p, p.Memory()
    ensures p.Valid() && p.Where() == After(old(p.Where()), call, mallocWorks)
    ensures if call.Reference? then p.mData == call.buffer && p.Bytes() == call.buffer[..]
            else Changed(old(p.Bytes()), old(p.Where()), call, mallocWorks, gap, p.Bytes())
    ensures TotalMoves(call, stats.size, p.Charge(), old(stats.size), old(p.Charge()))
    ensures p.mData == old(p.mData) || fresh(p.Memory()) || (call.Reference? && p.mData == call.buffer)
  {
    err, gap := NO_ERROR, [];
    match call {
      case Write(data) => err, gap := p.Write(stats, data, mallocWorks);
      case WriteInt32(val) => err, gap := p.WriteInt32(stats, val, mallocWorks);
      case SetDataSize(size) => err := p.SetDataSize(stats, size, mallocWorks);
      case SetDataPosition(pos) => p.SetDataPosition(pos);
      case Reference(buffer, release) => p.IpcSetDataReference(stats, buffer, release);
    }
  }
}
