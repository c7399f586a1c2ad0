/**
 The log device of logger.c: a ring buffer changed in place under its mutex, and
 the files open for reading it. Each method does what Ring and LogRuns define.
 */
module Logger {
  import opened Ring
  import opened LogRuns

  const EINTR := 4
  const EFAULT := 14
  const EINVAL := 22

  lemma PutByte(buf: seq<Byte>, off: nat, b: seq<Byte>, i: nat)
    requires off < |buf| && |b| <= |buf| && i < |buf|
    ensures Put(buf, off, b)[i] == if Dist(off, i, |buf|) < |b| then b[Dist(off, i, |buf|)] else buf[i]
  {
  }

  lemma DistFurther(off: nat, n: nat, i: nat, size: nat)
    requires off < size && i < size && n <= size
    ensures Dist(off, i, size) >= n ==> Dist(Ahead(off, n, size), i, size) == Dist(off, i, size) - n
    ensures Dist(off, i, size) < n ==> Dist(Ahead(off, n, size), i, size) == Dist(off, i, size) + size - n
  {
  }

  /** Storing two pieces one after the other stores them both. */
  lemma PutTwice(buf: seq<Byte>, w: nat, a: seq<Byte>, b: seq<Byte>)
    requires w < |buf| && |a| + |b| <= |buf|
    ensures Put(Put(buf, w, a), Ahead(w, |a|, |buf|), b) == Put(buf, w, a + b)
  {
    var first := Put(buf, w, a);
    var left, right := Put(first, Ahead(w, |a|, |buf|), b), Put(buf, w, a + b);
    forall i | 0 <= i < |buf| ensures left[i] == right[i] {
      PutByte(buf, w, a, i);
      PutByte(first, Ahead(w, |a|, |buf|), b, i);
      PutByte(buf, w, a + b, i);
      DistFurther(w, |a|, i, |buf|);
    }
  }

  lemma AheadTwice(off: nat, n: nat, m: nat, size: nat)
    requires off < size && n + m <= size
    ensures Ahead(Ahead(off, n, size), m, size) == Ahead(off, n + m, size)
  {
  }

  /** `g` are the bytes of the ring from `off` on. */
  predicate BytesFrom(buf: seq<Byte>, off: nat, g: seq<Byte>)
    requires off < |buf|
  {
    |g| <= |buf| && forall i :: 0 <= i < |g| ==> g[i] == buf[Ahead(off, i, |buf|)]
  }

  lemma GetIsBytesFrom(buf: seq<Byte>, off: nat, n: nat)
    requires off < |buf| && n <= |buf|
    ensures BytesFrom(buf, off, Get(buf, off, n))
  {
    GetAt(buf, off, n);
  }

  lemma BytesFromTwice(buf: seq<Byte>, off: nat, g: seq<Byte>, h: seq<Byte>, all: seq<Byte>)
    requires off < |buf| && |g| + |h| == |all| <= |buf|
    requires BytesFrom(buf, off, g) && BytesFrom(buf, Ahead(off, |g|, |buf|), h) && BytesFrom(buf, off, all)
    ensures g + h == all
  {
    forall i | 0 <= i < |all| ensures (g + h)[i] == all[i] {
      if i >= |g| {
        AheadTwice(off, |g|, i - |g|, |buf|);
      }
    }
  }

  lemma GetTwice(buf: seq<Byte>, off: nat, n: nat, m: nat)
    requires off < |buf| && n + m <= |buf|
    ensures Get(buf, off, n) + Get(buf, Ahead(off, n, |buf|), m) == Get(buf, off, n + m)
  {
    GetIsBytesFrom(buf, off, n);
    GetIsBytesFrom(buf, Ahead(off, n, |buf|), m);
    GetIsBytesFrom(buf, off, n + m);
    BytesFromTwice(buf, off, Get(buf, off, n), Get(buf, Ahead(off, n, |buf|), m), Get(buf, off, n + m));
  }

  lemma PutFrame(buf: seq<Byte>, w: nat, meta: seq<Byte>, data: seq<Byte>, n: nat)
    requires w < |buf| && |meta| == HEADER - 4 && n <= Count(data) && HEADER + Count(data) <= |buf|
    ensures Put(Put(buf, w, Header(Count(data), meta)), Ahead(w, HEADER, |buf|), data[..n])
         == Put(buf, w, Frame(meta, data)[..HEADER + n])
  {
    PutTwice(buf, w, Header(Count(data), meta), data[..n]);
    assert Header(Count(data), meta) + data[..n] == Frame(meta, data)[..HEADER + n];
  }

  function Least(a: nat, b: nat): nat {
    if a <= b then a else b
  }

  /** A copy of the first `len` bytes up to the end of the buffer, and one of the others from its start. */
  lemma PouredInTwo(was: seq<Byte>, off: nat, bytes: seq<Byte>, len: nat, first: seq<Byte>, now: seq<Byte>)
    requires off < |was| && PayloadInBounds(|was|, off, |bytes|) && len <= |bytes|
    requires len == |bytes| || off + len == |was|
    requires off + len <= |was| && first == was[..off] + bytes[..len] + was[off + len..]
    requires now == first[..0] + bytes[len..] + first[0 + (|bytes| - len)..]
    ensures now == Poured(was, off, bytes)
  {
    assert now == bytes[len..] + first[|bytes| - len..];
    if len == |bytes| {
      assert bytes[..len] == bytes && bytes[len..] == [];
    } else {
      assert was[off + len..] == [];
      assert first == was[..off] + bytes[..len];
    }
  }

  /** Header and payload, poured in one after the other, are the record around the wrap. */
  lemma PourFrame(buf: seq<Byte>, w: nat, meta: seq<Byte>, data: seq<Byte>, n: nat)
    requires w < |buf| && |meta| == HEADER - 4 && n <= Count(data) && HEADER + Count(data) <= |buf|
    ensures PayloadInBounds(|buf|, Ahead(w, HEADER, |buf|), n)
    ensures Poured(Put(buf, w, Header(Count(data), meta)), Ahead(w, HEADER, |buf|), data[..n])
         == Put(buf, w, Frame(meta, data)[..HEADER + n])
  {
    PutFrame(buf, w, meta, data, n);
    PouredIsPut(Put(buf, w, Header(Count(data), meta)), Ahead(w, HEADER, |buf|), data[..n]);
  }

  /** The stores of a write that fits the ring. */
  lemma StoresAreWrite(log: Log, meta: seq<Byte>, data: seq<Byte>, copied: nat)
    requires log.w < |log.buf| && |meta| == HEADER - 4 && Count(data) > 0 && HEADER + Count(data) <= |log.buf|
    ensures PayloadInBounds(|log.buf|, Ahead(log.w, HEADER, |log.buf|), Least(Count(data), copied))
    ensures AfterWrite(log, meta, data, copied).buf ==
      Poured(Put(log.buf, log.w, Header(Count(data), meta)), Ahead(log.w, HEADER, |log.buf|),
             data[..Least(Count(data), copied)])
  {
    var n := Least(Count(data), copied);
    PourFrame(log.buf, log.w, meta, data, n);
    BufferAfter(log, meta, data, copied);
  }

  lemma BufferAfter(log: Log, meta: seq<Byte>, data: seq<Byte>, copied: nat)
    requires log.w < |log.buf| && |meta| == HEADER - 4 && Count(data) > 0 && HEADER + Count(data) <= |log.buf|
    ensures AfterWrite(log, meta, data, copied).buf ==
      Put(log.buf, log.w, Frame(meta, data)[..HEADER + Least(Count(data), copied)])
  {
    WholeFrame(meta, data);
  }

  /** Where a write that fits the ring leaves the write offset. */
  lemma OffsetAfterWrite(log: Log, meta: seq<Byte>, data: seq<Byte>, copied: nat)
    requires log.w < |log.buf| && |meta| == HEADER - 4 && Count(data) > 0 && HEADER + Count(data) <= |log.buf|
    ensures AfterWrite(log, meta, data, copied).head == log.head
    ensures AfterWrite(log, meta, data, copied).w ==
      if copied < Count(data) then log.w else Around(Ahead(log.w, HEADER, |log.buf|), Count(data), |log.buf|)
  {
    MovedOn(log.w, Count(data), |log.buf|);
  }

  /** The stores of logger_write_iter, its new offset and its result. */
  predicate Entered(was: Log, header: seq<Byte>, data: seq<Byte>, count: nat, copied: nat, now: Log, ret: int)
    requires was.w < |was.buf| && HEADER <= |was.buf| && |header| == HEADER && count <= |data|
    requires PayloadInBounds(|was.buf|, Ahead(was.w, HEADER, |was.buf|), Least(count, copied))
  {
    var start := Ahead(was.w, HEADER, |was.buf|);
    && now.head == was.head
    && now.buf == Poured(Put(was.buf, was.w, header), start, data[..Least(count, copied)])
    && now.w == (if copied < count then was.w else Around(start, count, |was.buf|))
    && ret == if copied < count then -EFAULT else Least(count, |was.buf| - start)
  }

  /**
   What a write of some data does: its first 4096 bytes, or as many as can be copied, are
   stored behind a header that announces them, from the offset `start` after the header on.
   If all are, the write offset moves past them, and the result is how many of them lie
   before the end of the buffer.
   */
  predicate Wrote(was: Log, meta: seq<Byte>, data: seq<Byte>, copied: nat, now: Log, ret: int)
    requires was.w < |was.buf| && HEADER <= |was.buf| && |meta| == HEADER - 4
  {
    var size := |was.buf|;
    var start := was.w + 32 - if was.w + 32 < size then 0 else size;
    var n := if |data| < 4096 then |data| else 4096;
    var end := start + n;
    && now.head == was.head && PayloadInBounds(size, start, if copied < n then copied else n)
    && now.buf == Poured(Put(was.buf, was.w, Header(n, meta)), start, data[..if copied < n then copied else n])
    && now.w == (if copied < n then was.w else if end < size then end else if end < 2 * size then end - size else 0)
    && ret == if copied < n then -EFAULT else if end < size then n else size - start
  }

  lemma WroteEntry(was: Log, meta: seq<Byte>, data: seq<Byte>, copied: nat, now: Log, ret: int)
    requires was.w < |was.buf| && HEADER <= |was.buf| && |meta| == HEADER - 4
    requires PayloadInBounds(|was.buf|, Ahead(was.w, HEADER, |was.buf|), Least(Count(data), copied))
    requires Entered(was, Header(Count(data), meta), data, Count(data), copied, now, ret)
    ensures Wrote(was, meta, data, copied, now, ret)
  {
    var n := if |data| < 4096 then |data| else 4096;
    assert Count(data) == n && Least(n, copied) == if copied < n then copied else n;
    assert Ahead(was.w, HEADER, |was.buf|) == was.w + 32 - if was.w + 32 < |was.buf| then 0 else |was.buf|;
  }

  /** The stores and the new offset of a write that fits are those of AfterWrite. */
  lemma WriteIs(log: Log, meta: seq<Byte>, data: seq<Byte>, copied: nat, log': Log, ret: int)
    requires log.w < |log.buf| && |meta| == HEADER - 4 && Count(data) > 0 && HEADER + Count(data) <= |log.buf|
    requires PayloadInBounds(|log.buf|, Ahead(log.w, HEADER, |log.buf|), Least(Count(data), copied))
    requires Entered(log, Header(Count(data), meta), data, Count(data), copied, log', ret)
    ensures log' == AfterWrite(log, meta, data, copied)
  {
    StoresAreWrite(log, meta, data, copied);
    OffsetAfterWrite(log, meta, data, copied);
  }

  lemma WholeFrame(meta: seq<Byte>, data: seq<Byte>)
    requires |meta| == HEADER - 4
    ensures Frame(meta, data)[..HEADER + Count(data)] == Frame(meta, data)
  {
  }

  lemma MovedOn(w: nat, n: nat, size: nat)
    requires w < size && HEADER + n <= size
    ensures Around(Ahead(w, HEADER, size), n, size) == Ahead(w, HEADER + n, size)
  {
    AheadTwice(w, HEADER, n, size);
  }

  /** A file open for reading, of a reader that may read all entries. */
  class LogReader {
    var rOff: nat

    constructor (off: nat)
      ensures rOff == off
    {
      rOff := off;
    }
  }

  class LogDevice {
    const buffer: array<Byte>
    const bits: nat
    var wOff: nat
    var head: nat
    var readers: seq<LogReader>

    ghost predicate Valid()
      reads this, buffer
    {
      buffer.Length == Pow2(bits) && HEADER <= buffer.Length && wOff < buffer.Length && head < buffer.Length
    }

    ghost function Contents(): Log
      reads this, buffer
    {
      Log(buffer[..], wOff, head)
    }

    /** create_log, on an allocation of unknown contents. */
    constructor (bits: nat, allocation: array<Byte>)
      requires allocation.Length == Pow2(bits) && HEADER <= allocation.Length
      ensures Valid() && buffer == allocation && wOff == 0 && head == 0 && readers == []
    {
      this.bits, buffer := bits, allocation;
      wOff, head, readers := 0, 0, [];
    }

    /** logger_offset: `n & (size - 1)`. */
    function LoggerOffset(n: nat): (off: nat)
      requires buffer.Length == Pow2(bits)
      ensures off == n % buffer.Length
    {
      MaskIsMod(n, bits);
      And(n, buffer.Length - 1)
    }

    /** logger_offset of an offset and a number of bytes. */
    method OffsetAfter(off: nat, n: nat) returns (r: nat)
      requires Valid() && off < buffer.Length
      ensures r == (off + n) % buffer.Length < buffer.Length
      ensures n <= buffer.Length ==> r == Ahead(off, n, buffer.Length)
    {
      r := LoggerOffset(off + n);
      if n <= buffer.Length {
        AheadIsMod(off, n, buffer.Length);
      }
    }

    /** get_entry_header: in place, or put together from both ends of the buffer. */
    method GetEntryHeader(off: nat) returns (entry: seq<Byte>)
      requires Valid() && off < buffer.Length
      ensures entry == Get(buffer[..], off, HEADER)
    {
      var len := if HEADER <= buffer.Length - off then HEADER else buffer.Length - off;
      if len != HEADER {
        entry := buffer[off..off + len] + buffer[..HEADER - len];
      } else {
        entry := buffer[off..off + HEADER];
      }
    }

    method GetEntryMsgLen(off: nat) returns (len: nat)
      requires Valid() && off < buffer.Length
      ensures HEADER + len == EntrySize(buffer[..], off)
    {
      var entry := GetEntryHeader(off);
      len := LenField(entry);
    }

    // -------------------------------------------------------------------------
    // Writing
    // -------------------------------------------------------------------------

    method Memcpy(off: nat, src: seq<Byte>)
      requires off + |src| <= buffer.Length
      modifies buffer
      ensures buffer[..] == old(buffer[..off]) + src + old(buffer[off + |src|..])
    {
      forall i | 0 <= i < |src| {
        buffer[off + i] := src[i];
      }
    }

    /** The two copies of a header into the ring, of which the second may be of nothing. */
    method Store(off: nat, bytes: seq<Byte>)
      requires off < buffer.Length && |bytes| <= buffer.Length
      modifies buffer
      ensures buffer[..] == Put(old(buffer[..]), off, bytes)
    {
      var len := if |bytes| <= buffer.Length - off then |bytes| else buffer.Length - off;
      PouredIsPut(buffer[..], off, bytes);
      CopyAround(off, bytes, len);
    }

    /** The two calls of copy_from_iter, which manage to copy `copied` bytes in all. */
    method CopyFromIter(w: nat, data: seq<Byte>, count: nat, copied: nat) returns (works: bool, len: nat)
      requires w < buffer.Length && count <= |data|
      requires PayloadInBounds(buffer.Length, w, Least(count, copied))
      modifies buffer
      ensures works <==> copied >= count
      ensures buffer[..] == Poured(old(buffer[..]), w, data[..Least(count, copied)])
      ensures len == Least(count, buffer.Length - w)
    {
      len := if count <= buffer.Length - w then count else buffer.Length - w;
      if copied < len {
        Memcpy(w, data[..copied]);
        return false, len;
      }
      var all := if copied < count then copied else count;
      CopyAround(w, data[..all], len);
      works := copied >= count;
    }

    /** Both copies, of the first `len` bytes and of the others. */
    method CopyAround(w: nat, bytes: seq<Byte>, len: nat)
      requires w < buffer.Length && PayloadInBounds(buffer.Length, w, |bytes|) && w + len <= buffer.Length
      requires len <= |bytes| && (len == |bytes| || w + len == buffer.Length)
      modifies buffer
      ensures buffer[..] == Poured(old(buffer[..]), w, bytes)
    {
      ghost var was := buffer[..];
      Memcpy(w, bytes[..len]);
      ghost var first := buffer[..];
      Memcpy(0, bytes[len..]);
      PouredInTwo(was, w, bytes, len, first, buffer[..]);
    }

    /** logger_write_iter under the mutex: the two stores, and moving on if the second worked. */
    method WriteEntry(header: seq<Byte>, data: seq<Byte>, count: nat, copied: nat) returns (ret: int)
      requires Valid() && |header| == HEADER && count <= |data|
      requires PayloadInBounds(buffer.Length, Ahead(wOff, HEADER, buffer.Length), Least(count, copied))
      modifies this`wOff, buffer
      ensures Entered(old(Contents()), header, data, count, copied, Contents(), ret)
    {
      Store(wOff, header);
      var w := OffsetAfter(wOff, HEADER);
      var works, len := CopyFromIter(w, data, count, copied);
      if !works {
        return -EFAULT;
      }
      AroundIsMod(w, count, buffer.Length);
      wOff := OffsetAfter(w, count);
      return len;
    }

    /**
     logger_write_iter. `copied` is how many bytes copy_from_iter manages in all; the
     bytes that it copies must lie inside the buffer, as the source does not check. On
     success the result is the length of the first of the two copies of the payload.
     */
    method LoggerWriteIter(meta: seq<Byte>, data: seq<Byte>, copied: nat) returns (ret: int)
      requires Valid() && |meta| == HEADER - 4
      requires PayloadInBounds(buffer.Length, Ahead(wOff, HEADER, buffer.Length), Least(Count(data), copied))
      modifies this`wOff, buffer
      ensures Valid() && head == old(head)
      ensures data == [] ==> ret == 0 && Contents() == old(Contents())
      ensures data != [] ==> Wrote(old(Contents()), meta, data, copied, Contents(), ret)
      ensures HEADER + Count(data) <= buffer.Length ==> Contents() == AfterWrite(old(Contents()), meta, data, copied)
    {
      var count := if |data| <= MAX_PAYLOAD then |data| else MAX_PAYLOAD;
      var header := Header(count, meta);
      if count == 0 {
        return 0;
      }
      ghost var was := Contents();
      ret := WriteEntry(header, data, count, copied);
      WroteEntry(was, meta, data, copied, Contents(), ret);
      if HEADER + count <= buffer.Length {
        WriteIs(was, meta, data, copied, Contents(), ret);
      }
    }

    // -------------------------------------------------------------------------
    // Reading
    // -------------------------------------------------------------------------

    /** logger_open for reading: the new reader starts at the head. */
    method LoggerOpen() returns (reader: LogReader)
      requires Valid()
      modifies this`readers
      ensures Valid() && fresh(reader) && reader.rOff == head && readers == old(readers) + [reader]
    {
      reader := new LogReader(head);
      readers := readers + [reader];
    }

    /** logger_release: the reader leaves the list. */
    method LoggerRelease(i: nat)
      requires Valid() && i < |readers|
      modifies this`readers
      ensures Valid() && readers == old(readers)[..i] + old(readers)[i + 1..]
    {
      readers := readers[..i] + readers[i + 1..];
    }

    /** How many copies to the user a read of `total` bytes at `off` makes. */
    ghost function CopiesNeeded(off: nat, total: nat): nat
      requires off < buffer.Length && HEADER <= total <= buffer.Length
    {
      if Ahead(off, HEADER, buffer.Length) + total - HEADER <= buffer.Length then 2 else 3
    }

    /** The copies of the payload to the user, of which there are two when it passes the end of the buffer. */
    method CopyPayload(msgStart: nat, count: nat, good: nat) returns (works: bool, user: seq<Byte>)
      requires msgStart < buffer.Length && count <= buffer.Length
      ensures works <==> good >= if msgStart + count <= buffer.Length then 1 else 2
      ensures works ==> user == Get(buffer[..], msgStart, count)
    {
      user := [];
      var len := if count <= buffer.Length - msgStart then count else buffer.Length - msgStart;
      if good == 0 {
        return false, user;
      }
      user := buffer[msgStart..msgStart + len];
      if count != len {
        if good == 1 {
          return false, user;
        }
        user := user + buffer[..count - len];
      }
      return true, user;
    }

    /** do_read_log_to_user; `good` is how many copies to the user work before one fails. */
    method DoReadLogToUser(reader: LogReader, total: nat, good: nat) returns (ret: int, user: seq<Byte>)
      requires Valid() && reader.rOff < buffer.Length && HEADER <= total <= buffer.Length
      modifies reader
      ensures good < old(CopiesNeeded(reader.rOff, total)) ==> ret == -EFAULT && reader.rOff == old(reader.rOff)
      ensures good >= old(CopiesNeeded(reader.rOff, total)) ==>
        && ret == total && user == Get(buffer[..], old(reader.rOff), total)
        && reader.rOff == Ahead(old(reader.rOff), total, buffer.Length)
    {
      user := [];
      var entry := GetEntryHeader(reader.rOff);
      if good == 0 {
        return -EFAULT, user;
      }
      var count := total - HEADER;
      ghost var bytes := buffer[..];
      GetTwice(bytes, reader.rOff, HEADER, count);
      var msgStart := OffsetAfter(reader.rOff, HEADER);
      var works;
      works, user := CopyPayload(msgStart, count, good - 1);
      user := entry + user;
      if !works {
        return -EFAULT, user;
      }
      assert user == Get(bytes, reader.rOff, total);
      reader.rOff := OffsetAfter(reader.rOff, HEADER + count);
      return HEADER + count, user;
    }

    ghost function EntryCopies(off: nat): nat
      requires Valid() && off < buffer.Length && EntrySize(buffer[..], off) <= buffer.Length
      reads this, buffer
    {
      CopiesNeeded(off, EntrySize(buffer[..], off))
    }

    /** logger_read on a file that does not block. */
    method LoggerRead(reader: LogReader, count: nat, good: nat) returns (ret: int, user: seq<Byte>)
      requires Valid() && reader.rOff < buffer.Length
      requires reader.rOff == wOff || EntrySize(buffer[..], reader.rOff) <= buffer.Length
      modifies reader
      ensures var works := old(reader.rOff) != wOff && good >= old(EntryCopies(reader.rOff));
        match ReadAt(Contents(), old(reader.rOff), count, works)
        case Again => ret == -EINTR && reader.rOff == old(reader.rOff)
        case Invalid => ret == -EINVAL && reader.rOff == old(reader.rOff)
        case Fault => ret == -EFAULT && reader.rOff == old(reader.rOff)
        case Given(record) =>
          && ret == |record| && user == record
          && reader.rOff == Ahead(old(reader.rOff), |record|, buffer.Length)
    {
      user := [];
      if wOff == reader.rOff {
        return -EINTR, user;
      }
      var len := GetEntryMsgLen(reader.rOff);
      if count < HEADER + len {
        return -EINVAL, user;
      }
      ret, user := DoReadLogToUser(reader, HEADER + len, good);
    }

    // -------------------------------------------------------------------------
    // fix_up_readers
    // -------------------------------------------------------------------------

    /** The offset after an entry, and the size of the entry; `left` is what is still to be skipped. */
    method StepOver(off: nat, ghost left: int) returns (next: nat, n: nat)
      requires Valid() && off < buffer.Length
      ensures next < buffer.Length && n >= HEADER
      ensures Skip(buffer[..], off, left) == SkipRest(buffer[..], next, left - n)
    {
      var len := GetEntryMsgLen(off);
      SkipRestStep(buffer[..], off, left);
      next := OffsetAfter(off, HEADER + len);
      n := HEADER + len;
    }

    /** get_next_entry; it ends whatever the ring holds, since no entry is shorter than a header. */
    method GetNextEntry(start: nat, len: nat) returns (off: nat)
      requires Valid() && start < buffer.Length
      ensures off == Skip(buffer[..], start, len)
    {
      ghost var bytes := buffer[..];
      var count;
      off, count := StepOver(start, len);
      while count < len
        invariant off < buffer.Length
        invariant Skip(bytes, start, len) == SkipRest(bytes, off, len - count)
        decreases len - count
      {
        var n;
        off, n := StepOver(off, len - count);
        count := count + n;
      }
    }

    /** What fix_up_readers does with the head, and with each reader's offset. */
    method FixUpOffset(off: nat, len: nat) returns (fixed: nat)
      requires Valid() && off < buffer.Length
      ensures fixed == FixedUp(buffer[..], wOff, len, off)
    {
      var next := OffsetAfter(wOff, len);
      if IsBetween(wOff, next, off) {
        fixed := GetNextEntry(off, len);
      } else {
        fixed := off;
      }
    }

    /** fix_up_readers, before `len` bytes are written. */
    method FixUpReaders(len: nat)
      requires Valid() && forall i :: 0 <= i < |readers| ==> readers[i].rOff < buffer.Length
      requires forall i, j :: 0 <= i < j < |readers| ==> readers[i] != readers[j]
      modifies this`head, readers
      ensures Valid() && head == FixedUp(buffer[..], wOff, len, old(head))
      ensures forall i :: 0 <= i < |readers| ==>
        readers[i].rOff == FixedUp(buffer[..], wOff, len, old(readers[i].rOff))
    {
      head := FixUpOffset(head, len);
      ghost var bytes := buffer[..];
      ghost var was := seq(|readers|, i requires 0 <= i < |readers| reads this, readers => readers[i].rOff);
      var i := 0;
      while i < |readers|
        invariant 0 <= i <= |readers| && Valid() && buffer[..] == bytes && head == FixedUp(bytes, wOff, len, old(head))
        invariant forall j :: 0 <= j < i ==> readers[j].rOff == FixedUp(bytes, wOff, len, was[j])
        invariant forall j :: i <= j < |readers| ==> readers[j].rOff == was[j]
      {
        var fixed := FixUpOffset(readers[i].rOff, len);
        readers[i].rOff := fixed;
        i := i + 1;
      }
    }
  }
}
