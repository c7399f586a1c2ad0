/**
 The storage of Parcel.cpp: a parcel's buffer, its own or one referenced from an
 owner, and the count of bytes that all parcels hold of their own. Parcels here
 carry no binder objects. A malloc or realloc works or not as its caller says.
 */
module ParcelStorage {
  import opened ParcelData

  /** gParcelGlobalAllocSize and gParcelGlobalAllocCount. */
  class AllocStats {
    var size: nat
    var count: nat

    constructor ()
      ensures size == 0 && count == 0
    {
      size, count := 0, 0;
    }
  }

  class Parcel {
    var mError: int
    var mData: array?<bv8>
    var mDataSize: nat
    var mDataCapacity: nat
    var mDataPos: nat
    /** Whether there is a release function, so that the data is someone else's. */
    var mOwner: bool
    /** The buffers handed back to the release function so far. */
    ghost var released: seq<array<bv8>>

    ghost function Where(): Place
      reads this
    {
      Place(mData != null, mOwner, mDataSize, mDataCapacity, mDataPos)
    }

    ghost predicate Valid()
      reads this
    {
      Where().Valid() && (mData != null ==> mData.Length == mDataCapacity)
    }

    ghost function Bytes(): (b: seq<bv8>)
      requires Valid()
      reads this, mData
      ensures |b| == mDataSize
    {
      if mData == null then [] else mData[..mDataSize]
    }

    ghost function Charge(): nat
      reads this
    {
      Where().Charge()
    }

    ghost function Holds(): Filled
      requires Valid()
      reads this, mData
    {
      Filled(Where(), Bytes())
    }

    ghost function Memory(): set<object>
      reads this
    {
      if mData == null then {} else {mData}
    }

    constructor ()
      ensures Valid() && Bytes() == [] && Charge() == 0 && mError == NO_ERROR
      ensures mData == null && !mOwner && mDataPos == 0 && released == []
    {
      mError, mData, mDataSize, mDataCapacity, mDataPos, mOwner := NO_ERROR, null, 0, 0, 0, false;
      released := [];
    }

    method InitState()
      modifies this
      ensures mError == NO_ERROR && mData == null && mDataSize == mDataCapacity == mDataPos == 0 && !mOwner
      ensures released == old(released)
    {
      mError, mData, mDataSize, mDataCapacity, mDataPos, mOwner := NO_ERROR, null, 0, 0, 0, false;
    }

    /** freeDataNoInit. */
    method FreeDataNoInit(stats: AllocStats)
      requires Valid()
      modifies stats`size, this`released
      ensures stats.size == if Charge() <= old(stats.size) then old(stats.size) - Charge() else 0
      ensures released == old(released) + if mOwner then [mData] else []
    {
      if mOwner {
        released := released + [mData];
      } else if mData != null {
        if mDataCapacity <= stats.size {
          stats.size := stats.size - mDataCapacity;
        } else {
          stats.size := 0;
        }
      }
    }

    /**
     ipcSetDataReference, `release` being whether there is a release function: the position
     stays where it was. Without one the buffer counts as the parcel's own from then on,
     and is not added to the global size.
     */
    method IpcSetDataReference(stats: AllocStats, data: array<bv8>, release: bool)
      requires Valid() && data.Length <= PTRDIFF_MAX
      modifies this, stats
      ensures Valid() && Where() == Place(true, release, data.Length, data.Length, old(mDataPos))
      ensures mData == data && Bytes() == data[..] && mError == NO_ERROR
      ensures stats.size == if old(Charge()) <= old(stats.size) then old(stats.size) - old(Charge()) else 0
      ensures released == old(released) + if old(mOwner) then [old(mData)] else []
    {
      FreeDataNoInit(stats);
      mError := NO_ERROR;
      mData, mDataSize, mDataCapacity := data, data.Length, data.Length;
      mOwner := release;
    }

    ghost predicate Continued(desired: nat, was: Place, bytes: seq<bv8>)
      reads this, mData
    {
      && Valid() && Where() == was.Continued(desired)
      && |bytes| == was.size && Bytes() == bytes[..Min(was.size, desired)]
    }

    method Malloc(size: nat, works: bool) returns (data: array?<bv8>)
      ensures works <==> data != null
      ensures data != null ==> fresh(data) && data.Length == size
    {
      if works {
        data := new bv8[size];
      } else {
        data := null;
      }
    }

    static method Memcpy(dst: array<bv8>, src: array<bv8>, n: nat)
      requires n <= dst.Length && n <= src.Length
      modifies dst
      ensures dst[..n] == old(src[..n])
    {
      forall i | 0 <= i < n {
        dst[i] := src[i];
      }
    }

    /** continueWrite: the contents are kept up to the new capacity. */
    method ContinueWrite(stats: AllocStats, desired: nat, mallocWorks: bool) returns (err: int)
      requires Valid()
      modifies this, stats
      ensures Valid() && stats.size - Charge() == old(stats.size - Charge())
      ensures err == if desired > INT32_MAX then BAD_VALUE
                     else if old(Where()).Continues(desired, mallocWorks) then NO_ERROR else NO_MEMORY
      ensures err == NO_ERROR ==> Continued(desired, old(Where()), old(Bytes()))
      ensures err == NO_ERROR ==> released == old(released) + if old(mOwner) then [old(mData)] else []
      ensures err == NO_ERROR ==> mError == if old(mOwner) && desired == 0 then NO_ERROR else old(mError)
      ensures err != NO_ERROR ==> Where() == old(Where()) && mData == old(mData) && released == old(released)
      ensures err != NO_ERROR ==> mError == if desired > INT32_MAX then old(mError) else NO_MEMORY
      ensures mData == old(mData) || fresh(Memory())
    {
      if desired > INT32_MAX {
        return BAD_VALUE;
      }
      if mOwner {
        if desired == 0 {
          FreeDataNoInit(stats);
          InitState();
          return NO_ERROR;
        }
        err := TakeOver(stats, desired, mallocWorks);
      } else if mData != null {
        if desired > mDataCapacity {
          err := Reallocate(stats, desired, mallocWorks);
        } else {
          err := NO_ERROR;
          if mDataSize > desired {
            mDataSize := desired;
          }
          if mDataPos > desired {
            mDataPos := desired;
          }
        }
      } else {
        err := AllocateFirst(stats, desired, mallocWorks);
      }
    }

    /** The branch of continueWrite that leaves an owner's buffer for one of the parcel's own. */
    method TakeOver(stats: AllocStats, desired: nat, mallocWorks: bool) returns (err: int)
      requires Valid() && mOwner && 0 < desired <= INT32_MAX
      modifies this, stats
      ensures Valid() && stats.size - Charge() == old(stats.size - Charge())
      ensures err == if mallocWorks then NO_ERROR else NO_MEMORY
      ensures mError == if mallocWorks then old(mError) else NO_MEMORY
      ensures mallocWorks ==> Continued(desired, old(Where()), old(Bytes())) && fresh(Memory())
      ensures mallocWorks ==> released == old(released) + [old(mData)]
      ensures !mallocWorks ==> Where() == old(Where()) && mData == old(mData) && released == old(released)
    {
      var data := Malloc(desired, mallocWorks);
      if data == null {
        mError := NO_MEMORY;
        return NO_MEMORY;
      }
      Memcpy(data, mData, if mDataSize < desired then mDataSize else desired);
      released := released + [mData];
      mOwner := false;
      stats.size, stats.count := stats.size + desired, stats.count + 1;
      mData := data;
      mDataSize := if mDataSize < desired then mDataSize else desired;
      mDataCapacity := desired;
      return NO_ERROR;
    }

    /** The branch that makes the parcel's own buffer larger. */
    method Reallocate(stats: AllocStats, desired: nat, mallocWorks: bool) returns (err: int)
      requires Valid() && !mOwner && mData != null && mDataCapacity < desired <= INT32_MAX
      modifies this, stats
      ensures Valid() && stats.size - Charge() == old(stats.size - Charge()) && released == old(released)
      ensures err == if mallocWorks then NO_ERROR else NO_MEMORY
      ensures mError == if mallocWorks then old(mError) else NO_MEMORY
      ensures mallocWorks ==> Continued(desired, old(Where()), old(Bytes())) && fresh(Memory())
      ensures !mallocWorks ==> Where() == old(Where()) && mData == old(mData)
    {
      var data := Malloc(desired, mallocWorks);
      if data == null {
        mError := NO_MEMORY;
        return NO_MEMORY;
      }
      Memcpy(data, mData, mDataCapacity);
      stats.size := stats.size + desired;
      stats.size := stats.size - mDataCapacity;
      mData, mDataCapacity := data, desired;
      return NO_ERROR;
    }

    /** The branch for the first data. */
    method AllocateFirst(stats: AllocStats, desired: nat, mallocWorks: bool) returns (err: int)
      requires Valid() && mData == null && desired <= INT32_MAX
      modifies this, stats
      ensures Valid() && stats.size - Charge() == old(stats.size - Charge()) && released == old(released)
      ensures err == if mallocWorks then NO_ERROR else NO_MEMORY
      ensures mError == if mallocWorks then old(mError) else NO_MEMORY
      ensures mallocWorks ==> Continued(desired, old(Where()), old(Bytes())) && fresh(Memory())
      ensures !mallocWorks ==> Where() == old(Where()) && mData == old(mData)
    {
      var data := Malloc(desired, mallocWorks);
      if data == null {
        mError := NO_MEMORY;
        return NO_MEMORY;
      }
      stats.size, stats.count := stats.size + desired, stats.count + 1;
      mData := data;
      mDataSize, mDataPos := 0, 0;
      mDataCapacity := desired;
      return NO_ERROR;
    }

    /** setDataSize: what was there is kept up to the new size; bytes beyond it are whatever the memory held. */
    method SetDataSize(stats: AllocStats, size: nat, mallocWorks: bool) returns (err: int)
      requires Valid()
      modifies this, stats
      ensures Valid() && stats.size - Charge() == old(stats.size - Charge())
      ensures err == NO_ERROR <==> old(Where()).Continues(size, mallocWorks)
      ensures Where() == old(Where()).Resized(size, mallocWorks)
      ensures err == NO_ERROR ==> mDataSize == size
      ensures err == NO_ERROR ==>
        (mDataPos == if old(mData) == null || (old(mOwner) && size == 0) then 0
                     else if !old(mOwner) && size <= old(mDataCapacity) then Min(old(mDataPos), size)
                     else old(mDataPos))
      ensures err == NO_ERROR ==>
        Bytes()[..Min(old(mDataSize), size)] == old(Bytes())[..Min(old(mDataSize), size)]
      ensures mData == old(mData) || fresh(Memory())
      ensures err != NO_ERROR ==> Bytes() == old(Bytes())
    {
      if size > INT32_MAX {
        return BAD_VALUE;
      }
      err := ContinueWrite(stats, size, mallocWorks);
      if err == NO_ERROR {
        ghost var kept := Bytes();
        mDataSize := size;
        assert Bytes()[..|kept|] == kept;
      }
    }

    method SetDataPosition(pos: nat)
      requires Valid() && pos <= SIZE_MAX
      modifies this`mDataPos
      ensures Valid() && Where() == old(Where()).(pos := pos)
    {
      mDataPos := pos;
    }

    /** finishWrite. */
    method FinishWrite(len: nat) returns (err: int)
      modifies this`mDataPos, this`mDataSize
      ensures Where() == old(Where()).Finish(len)
      ensures err == if len <= INT32_MAX then NO_ERROR else BAD_VALUE
    {
      if len > INT32_MAX {
        return BAD_VALUE;
      }
      mDataPos := mDataPos + len;
      if mDataPos > mDataSize {
        mDataSize := mDataPos;
      }
      return NO_ERROR;
    }

    /** growData. No product overflows: a sum beyond a third of SIZE_MAX is refused before. */
    method GrowData(stats: AllocStats, len: nat, mallocWorks: bool) returns (err: int)
      requires Valid()
      modifies this, stats
      ensures Valid() && stats.size - Charge() == old(stats.size - Charge())
      ensures err == old(Where()).GrowError(len, mallocWorks)
      ensures Where() == if err == NO_ERROR then old(Where()).Continued(Grown(old(mDataSize), len)) else old(Where())
      ensures Bytes() == old(Bytes())
      ensures err == NO_ERROR ==> mError == old(mError)
      ensures err != NO_ERROR ==> mData == old(mData)
      ensures err != NO_ERROR ==> mError == if Growable(old(mDataSize), len) then NO_MEMORY else old(mError)
      ensures mData == old(mData) || fresh(Memory())
    {
      if len > INT32_MAX {
        return BAD_VALUE;
      }
      if len > SIZE_MAX - mDataSize {
        return NO_MEMORY;
      }
      if mDataSize + len > SIZE_MAX / 3 {
        return NO_MEMORY;
      }
      var newSize := (mDataSize + len) * 3 / 2;
      if newSize <= mDataSize {
        return NO_MEMORY;
      }
      ghost var bytes := Bytes();
      err := ContinueWrite(stats, newSize, mallocWorks);
      assert bytes[..Min(|bytes|, newSize)] == bytes;
    }

    /** The test before each write: growData is called when there is no room for `len` bytes at the position. */
    method MakeRoom(stats: AllocStats, len: nat, mallocWorks: bool) returns (err: int)
      requires Valid()
      modifies this, stats
      ensures Valid() && stats.size - Charge() == old(stats.size - Charge())
      ensures err == if old(Where()).Fits(len) then NO_ERROR else old(Where()).GrowError(len, mallocWorks)
      ensures Where() == if err == NO_ERROR then old(Where()).Roomy(len) else old(Where())
      ensures Bytes() == old(Bytes())
      ensures mError == if old(Where()).MallocFails(len, mallocWorks) then NO_MEMORY else old(mError)
      ensures mData == old(mData) || fresh(Memory())
    {
      GrowErrorMeans(Where(), len, mallocWorks);
      err := NO_ERROR;
      if (mDataPos + len) % (SIZE_MAX + 1) > mDataCapacity {
        err := GrowData(stats, len, mallocWorks);
      }
    }

    /** The last word of the padded data loses its padding bytes. */
    method ClearPadding(at: nat, len: nat, padded: nat)
      requires mData != null && at + padded <= mData.Length
      requires padded == PadSize(len) && len <= INT32_MAX && len != padded
      modifies mData
      ensures forall i :: 0 <= i < mData.Length ==>
        mData[i] == if at + len <= i < at + padded then 0 else old(mData[i])
    {
      PadSizeRoundsUp(len);
      var word, padding := at + padded - 4, padded - len;
      var j := 0;
      while j < 4
        invariant forall i :: 0 <= i < mData.Length ==>
          mData[i] == if at + len <= i < word + j then 0 else old(mData[i])
      {
        MaskClearsPadding(mData[word + j], padding, j);
        mData[word + j] := mData[word + j] & ByteOf(Mask(padding), j);
        j := j + 1;
      }
    }

    /** The contents are `was` with `len` bytes of any value and their padding written at `at`. */
    ghost predicate Prepared(was: seq<bv8>, gap: seq<bv8>, at: nat, len: nat, padding: nat)
      reads this, mData
    {
      && Valid() && mData != null && at + len <= mData.Length && IsGap(was, at, gap)
      && Bytes() == Finished(was, gap, at, mData[at..at + len] + Zeros(padding))
    }

    /** The part of writeInplace that is reached with and without growing. */
    method RestartWrite(len: nat, padded: nat) returns (at: nat, ghost gap: seq<bv8>)
      requires Valid() && mData != null && len <= INT32_MAX && padded == PadSize(len)
      requires mDataPos + padded <= mDataCapacity
      modifies this`mDataPos, this`mDataSize, mData
      ensures at == old(mDataPos) && Where() == old(Where()).Finish(padded)
      ensures len <= padded && Prepared(old(Bytes()), gap, at, len, padded - len)
    {
      PadSizeRoundsUp(len);
      at := mDataPos;
      ghost var m := mData[..];
      gap := GapIn(m, mDataSize, at);
      if padded != len {
        ClearPadding(at, len, padded);
      }
      PaddedInPlace(m, mDataSize, at, len, padded, mData[..]);
      var _ := FinishWrite(padded);
    }

    /** The tests of writeInplace before the write. */
    method FindRoom(stats: AllocStats, len: nat, padded: nat, mallocWorks: bool) returns (ok: bool)
      requires Valid() && len <= INT32_MAX && padded == PadSize(len)
      modifies this, stats
      ensures Valid() && stats.size - Charge() == old(stats.size - Charge())
      ensures ok <==> old(Where()).Writable(len, mallocWorks)
      ensures Where() == if ok then old(Where()).Roomy(padded) else old(Where())
      ensures ok ==> mData != null && (old(Where()).InBounds(padded) ==> mDataPos + padded <= mDataCapacity)
      ensures Bytes() == old(Bytes())
      ensures mError == if old(Where()).WriteMallocFails(len, mallocWorks) then NO_MEMORY else old(mError)
      ensures mData == old(mData) || fresh(Memory())
    {
      WritableByTests(Where(), len, mallocWorks);
      if (mDataPos + padded) % (SIZE_MAX + 1) < mDataPos {
        return false;
      }
      var err := MakeRoom(stats, padded, mallocWorks);
      return err == NO_ERROR && mData != null;
    }

    /**
     writeInplace: where `len` bytes may be put, already followed by their padding. There
     is no place for no bytes in a parcel without a buffer. The caller has to see to it that
     the position is not so far off that the place is outside the buffer; `gap` is what the
     memory held between the contents and a position after them.
     */
    method WriteInplace(stats: AllocStats, len: nat, mallocWorks: bool)
      returns (ok: bool, at: nat, ghost gap: seq<bv8>)
      requires Valid()
      requires Where().Writable(len, mallocWorks) ==> Where().InBounds(PadSize(len))
      modifies this, stats, Memory()
      ensures Valid() && stats.size - Charge() == old(stats.size - Charge())
      ensures ok <==> old(Where()).Writable(len, mallocWorks)
      ensures Where() == if ok then old(Where()).Written(PadSize(len)) else old(Where())
      ensures ok ==> at == old(Where()).Roomy(PadSize(len)).pos
      ensures ok ==> len <= PadSize(len) && Prepared(old(Bytes()), gap, at, len, PadSize(len) - len)
      ensures !ok ==> Bytes() == old(Bytes())
      ensures mError == if old(Where()).WriteMallocFails(len, mallocWorks) then NO_MEMORY else old(mError)
      ensures mData == old(mData) || fresh(Memory())
    {
      ok, at, gap := false, 0, [];
      if len > INT32_MAX {
        return;
      }
      var padded := PadSize(len);
      ok := FindRoom(stats, len, padded, mallocWorks);
      if ok {
        at, gap := RestartWrite(len, padded);
      }
    }

    /** The memcpy of write, into the place that writeInplace made in the contents `was`. */
    method FillIn(at: nat, data: seq<bv8>, ghost was: seq<bv8>, ghost gap: seq<bv8>, ghost padding: nat)
      requires Prepared(was, gap, at, |data|, padding)
      modifies mData
      ensures IsGap(was, at, gap) && Bytes() == Finished(was, gap, at, data + Zeros(padding))
    {
      ghost var p := mData[at..at + |data|] + Zeros(padding);
      forall i | 0 <= i < |data| {
        mData[at + i] := data[i];
      }
      FilledIn(was, gap, at, p, data, Bytes());
      assert p[|data|..] == Zeros(padding);
    }

    /**
     write: the data and its padding are spliced in at the position, across any
     reallocation. When they are not, the result is the error of the parcel, which
     says so only if an allocation failed, now or earlier.
     */
    method Write(stats: AllocStats, data: seq<bv8>, mallocWorks: bool) returns (err: int, ghost gap: seq<bv8>)
      requires Valid()
      requires Where().Writable(|data|, mallocWorks) ==> Where().InBounds(PadSize(|data|))
      modifies this, stats, Memory()
      ensures Valid() && stats.size - Charge() == old(stats.size - Charge())
      ensures err == old(Where().WriteError(mError, |data|, mallocWorks))
      ensures Where() == if old(Where()).Writable(|data|, mallocWorks) then old(Where()).Written(PadSize(|data|))
                         else old(Where())
      ensures old(Where()).Writable(|data|, mallocWorks) ==>
        && IsGap(old(Bytes()), old(Where()).Roomy(PadSize(|data|)).pos, gap)
        && Bytes() == Finished(old(Bytes()), gap, old(Where()).Roomy(PadSize(|data|)).pos, Padded(data))
      ensures !old(Where()).Writable(|data|, mallocWorks) ==> Bytes() == old(Bytes())
      ensures old(Where()).Writable(|data|, mallocWorks) && |data| <= INT32_MAX - 3 ==>
        Wrote(old(Holds()), data, Holds())
      ensures old(Where()).Placed() ==> Where().Placed()
      ensures mError == if old(Where()).WriteMallocFails(|data|, mallocWorks) then NO_MEMORY else old(mError)
      ensures mData == old(mData) || fresh(Memory())
    {
      err, gap := BAD_VALUE, [];
      if |data| <= INT32_MAX {
        ghost var was := Holds();
        var ok, at;
        ok, at, gap := WriteInplace(stats, |data|, mallocWorks);
        if ok {
          FillIn(at, data, was.bytes, gap, PadSize(|data|) - |data|);
          WriteEnds(was, data, mallocWorks, gap, Holds());
        }
        err := if ok then NO_ERROR else mError;
      }
    }

    /** One of many writes, with the position no further than the size. */
    method WriteChunk(stats: AllocStats, data: seq<bv8>, mallocWorks: bool)
      requires Valid() && Where().Placed()
      modifies this, stats, Memory()
      ensures Valid() && stats.size - Charge() == old(stats.size - Charge())
      ensures Where().Placed() && Holds() == WriteOne(old(Holds()), data, mallocWorks)
      ensures mData == old(mData) || fresh(Memory())
    {
      PlacedAllows(Where(), |data|, mallocWorks);
      if Where().Writable(|data|, mallocWorks) {
        PlacedWritesAreInBounds(Where(), PadSize(|data|), mallocWorks);
      }
      var _, _ := Write(stats, data, mallocWorks);
    }

    /** Writing chunk after chunk, whatever each of them returns. */
    method WriteAll(stats: AllocStats, chunks: seq<seq<bv8>>, works: seq<bool>)
      requires Valid() && Where().Placed() && |works| == |chunks|
      modifies this, stats, Memory()
      ensures Valid() && stats.size - Charge() == old(stats.size - Charge())
      ensures Holds() == WriteEach(old(Holds()), chunks, works)
      ensures AllFinish(Taken(old(Holds()), chunks, works)) ==>
        && Bytes() == Spliced(old(Bytes()), old(mDataPos), AllPadded(Taken(old(Holds()), chunks, works)))
        && mDataPos == old(mDataPos) + |AllPadded(Taken(old(Holds()), chunks, works))|
      ensures mData == old(mData) || fresh(Memory())
    {
      var i := 0;
      while i < |chunks|
        invariant 0 <= i <= |chunks|
        invariant Valid() && Where().Placed() && stats.size - Charge() == old(stats.size - Charge())
        invariant WriteEach(Holds(), chunks[i..], works[i..]) == WriteEach(old(Holds()), chunks, works)
        invariant mData == old(mData) || fresh(Memory())
      {
        assert chunks[i..][1..] == chunks[i + 1..] && works[i..][1..] == works[i + 1..];
        WriteChunk(stats, chunks[i], works[i]);
        i := i + 1;
      }
      WritesAdvance(old(Holds()), chunks, works);
      if AllFinish(Taken(old(Holds()), chunks, works)) {
        WritesAreOneSplice(old(Holds()), chunks, works);
      }
    }

    method StoreWord(at: nat, word: seq<bv8>)
      requires mData != null && |word| == 4 && at + 4 <= mData.Length
      modifies mData
      ensures mData[..] == old(mData[..at]) + word + old(mData[at + 4..])
    {
      mData[at], mData[at + 1], mData[at + 2], mData[at + 3] := word[0], word[1], word[2], word[3];
    }

    /** The part of writeAligned that is reached with and without growing. */
    method RestartAligned(word: seq<bv8>) returns (err: int, ghost gap: seq<bv8>)
      requires Valid() && mData != null && mDataPos + 4 <= mDataCapacity && |word| == 4
      modifies this`mDataPos, this`mDataSize, mData
      ensures Valid() && err == NO_ERROR && Where() == old(Where()).Finish(4)
      ensures IsGap(old(Bytes()), old(mDataPos), gap)
      ensures Bytes() == Finished(old(Bytes()), gap, old(mDataPos), word)
    {
      ghost var m, size := mData[..], mDataSize;
      var at := mDataPos;
      gap := GapIn(m, size, at);
      StoreWord(at, word);
      WordInPlace(m, size, at, word, mData[..]);
      err := FinishWrite(4);
    }

    /**
     writeAligned of a value of four bytes, which unlike write returns the error of
     growData, and does not notice when the sum of position and length wraps.
     */
    method WriteAligned(stats: AllocStats, word: seq<bv8>, mallocWorks: bool) returns (err: int, ghost gap: seq<bv8>)
      requires Valid() && |word| == 4
      requires Where().MakesRoom(4, mallocWorks) ==> Where().InBounds(4)
      modifies this, stats, Memory()
      ensures Valid() && stats.size - Charge() == old(stats.size - Charge())
      ensures err == if old(Where()).Fits(4) then NO_ERROR else old(Where()).GrowError(4, mallocWorks)
      ensures Where() == if err == NO_ERROR then old(Where()).Written(4) else old(Where())
      ensures err == NO_ERROR ==>
        && IsGap(old(Bytes()), old(Where()).Roomy(4).pos, gap)
        && Bytes() == Finished(old(Bytes()), gap, old(Where()).Roomy(4).pos, word)
      ensures err == NO_ERROR ==> Wrote(old(Holds()), word, Holds())
      ensures err != NO_ERROR ==> Bytes() == old(Bytes())
      ensures old(Where()).Placed() ==> Where().Placed()
      ensures mData == old(mData) || fresh(Memory())
    {
      gap := [];
      ghost var was := Holds();
      err := MakeRoom(stats, 4, mallocWorks);
      if err == NO_ERROR {
        err, gap := RestartAligned(word);
        WordIsWrote(was, word, mallocWorks, gap, Holds());
      }
    }

    /** writeInt32. */
    method WriteInt32(stats: AllocStats, val: bv32, mallocWorks: bool) returns (err: int, ghost gap: seq<bv8>)
      requires Valid()
      requires Where().MakesRoom(4, mallocWorks) ==> Where().InBounds(4)
      modifies this, stats, Memory()
      ensures Valid() && stats.size - Charge() == old(stats.size - Charge())
      ensures err == if old(Where()).Fits(4) then NO_ERROR else old(Where()).GrowError(4, mallocWorks)
      ensures Where() == if err == NO_ERROR then old(Where()).Written(4) else old(Where())
      ensures err == NO_ERROR ==>
        && IsGap(old(Bytes()), old(Where()).Roomy(4).pos, gap)
        && Bytes() == Finished(old(Bytes()), gap, old(Where()).Roomy(4).pos, Int32Bytes(val))
      ensures err == NO_ERROR ==> Wrote(old(Holds()), Int32Bytes(val), Holds())
      ensures err != NO_ERROR ==> Bytes() == old(Bytes())
      ensures old(Where()).Placed() ==> Where().Placed()
      ensures mData == old(mData) || fresh(Memory())
    {
      err, gap := WriteAligned(stats, Int32Bytes(val), mallocWorks);
    }
  }
}
