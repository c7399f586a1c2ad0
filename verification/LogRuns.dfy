/**
 Runs of writes, opens and reads on one log of logger.c, with any number of
 readers: what each reader is given. fix_up_readers is not called, as in the
 driver, so a run must not let the writer lap a reader.
 */
module LogRuns {
  import opened Ring

  /** A log: its bytes, write offset and head. */
  datatype Log = Log(buf: seq<Byte>, w: nat, head: nat)

  /** A reader's offset, and the records it was given so far. */
  datatype Reader = Reader(off: nat, got: seq<seq<Byte>>)

  /**
   `sent` is the records written so far, and `headIntact` whether they are all
   still in the ring, from the head on.
   */
  datatype State = State(log: Log, readers: seq<Reader>, sent: seq<seq<Byte>>, headIntact: bool)

  /**
   A call: a write of `data`, of which copy_from_iter manages to copy `copied` bytes;
   an open for reading, or a close of a reader; or a read into `count` bytes, whose copies
   to the user all work or not.
   */
  datatype Op =
    | Write(meta: seq<Byte>, data: seq<Byte>, copied: nat)
    | Open
    | Close(reader: nat)
    | Read(reader: nat, count: nat, works: bool)

  // ---------------------------------------------------------------------------
  // The calls
  // ---------------------------------------------------------------------------

  function Count(data: seq<Byte>): (n: nat) {
    if |data| <= MAX_PAYLOAD then |data| else MAX_PAYLOAD
  }

  /** What is left of data that is cut at 4096 bytes. */
  function Cut(data: seq<Byte>): (d: seq<Byte>)
    ensures d <= data && |d| == if |data| < 4096 then |data| else 4096
  {
    data[..if |data| < 4096 then |data| else 4096]
  }

  /** A record of 32 bytes of header, with its two lengths in little-endian order, and the data. */
  predicate Carries(r: seq<Byte>, meta: seq<Byte>, data: seq<Byte>) {
    && |r| == 32 + |data| && r[0] as int + 256 * r[1] as int == |data| && r[2] as int + 256 * r[3] as int == 32
    && r[4..32] == meta && r[32..] == data
  }

  /** The record that a write makes of its data. */
  function Frame(meta: seq<Byte>, data: seq<Byte>): (r: seq<Byte>)
    requires |meta| == HEADER - 4
    ensures IsRecord(r) && |r| == HEADER + Count(data) && Carries(r, meta, Cut(data))
    ensures |data| <= 4096 ==> r[HEADER..] == data
  {
    Header(Count(data), meta) + data[..Count(data)]
  }

  predicate Succeeds(data: seq<Byte>, copied: nat) {
    Count(data) > 0 && copied >= Count(data)
  }

  /** logger_write_iter: nothing for no data; header and what was copied, without moving on, when a copy fails. */
  function AfterWrite(log: Log, meta: seq<Byte>, data: seq<Byte>, copied: nat): (r: Log)
    requires log.w < |log.buf| && |meta| == HEADER - 4 && HEADER + Count(data) <= |log.buf|
  {
    if Count(data) == 0 then log
    else if copied < Count(data) then log.(buf := Put(log.buf, log.w, Frame(meta, data)[..HEADER + copied]))
    else log.(buf := Put(log.buf, log.w, Frame(meta, data)), w := Ahead(log.w, HEADER + Count(data), |log.buf|))
  }

  datatype ReadResult = Again | Invalid | Fault | Given(record: seq<Byte>)

  /** logger_read on one reader's offset: -EINTR when there is nothing, -EINVAL, -EFAULT, or a whole entry. */
  function ReadAt(log: Log, off: nat, count: nat, works: bool): ReadResult
    requires HEADER <= |log.buf| && off < |log.buf|
    requires off == log.w || EntrySize(log.buf, off) <= |log.buf|
  {
    if off == log.w then Again
    else if count < EntrySize(log.buf, off) then Invalid
    else if !works then Fault
    else Given(Get(log.buf, off, EntrySize(log.buf, off)))
  }

  function AfterRead(log: Log, r: Reader, count: nat, works: bool): Reader
    requires HEADER <= |log.buf| && r.off < |log.buf|
    requires r.off == log.w || EntrySize(log.buf, r.off) <= |log.buf|
  {
    match ReadAt(log, r.off, count, works)
    case Given(record) => Reader(Ahead(r.off, |record|, |log.buf|), r.got + [record])
    case _ => r
  }

  /**
   A write whose copies work moves the offset on by header and data, cut at 4096 bytes, and
   appends a record that carries them to what is readable from any offset it does not reach.
   */
  lemma WriteAppends(log: Log, off: nat, meta: seq<Byte>, data: seq<Byte>, copied: nat) returns (r: seq<Byte>)
    requires log.w < |log.buf| && off < |log.buf| && |meta| == 28 && data != [] && copied >= |Cut(data)|
    requires Dist(off, log.w, |log.buf|) + 32 + |Cut(data)| < |log.buf|
    ensures Carries(r, meta, Cut(data)) && HEADER + Count(data) <= |log.buf|
    ensures var log' := AfterWrite(log, meta, data, copied);
      && |log'.buf| == |log.buf| && log'.head == log.head
      && log'.w == log.w + 32 + |Cut(data)| - (if log.w + 32 + |Cut(data)| < |log.buf| then 0 else |log.buf|)
      && Readable(log'.buf, off, log'.w) == Readable(log.buf, off, log.w) + r
  {
    r := Frame(meta, data);
    PutAppends(log.buf, off, log.w, r);
  }

  /** A write of nothing does nothing, and one whose copies fail moves no offset. */
  lemma WriteStays(log: Log, meta: seq<Byte>, data: seq<Byte>, copied: nat)
    requires log.w < |log.buf| && |meta| == 28 && HEADER + Count(data) <= |log.buf|
    ensures data == [] ==> AfterWrite(log, meta, data, copied) == log
    ensures copied < |Cut(data)| ==>
      AfterWrite(log, meta, data, copied).w == log.w && AfterWrite(log, meta, data, copied).head == log.head
  {
    assert |Cut(data)| == |Frame(meta, data)| - 32;
  }

  // ---------------------------------------------------------------------------
  // Runs
  // ---------------------------------------------------------------------------

  ghost predicate WellFormed(s: State) {
    && HEADER <= |s.log.buf| && s.log.w < |s.log.buf| && s.log.head < |s.log.buf|
    && forall j :: 0 <= j < |s.readers| ==> s.readers[j].off < |s.log.buf|
  }

  /** No reader is lapped by a write of `n` bytes. */
  predicate Unlapped(s: State, n: nat)
    requires s.log.w < |s.log.buf| && forall j :: 0 <= j < |s.readers| ==> s.readers[j].off < |s.log.buf|
  {
    && n < |s.log.buf|
    && forall j :: 0 <= j < |s.readers| ==> Dist(s.readers[j].off, s.log.w, |s.log.buf|) + n < |s.log.buf|
  }

  /** What a run must keep to: records smaller than the ring, no lapping, and opens before the head is lapped. */
  ghost predicate Allowed(s: State, op: Op) {
    && WellFormed(s)
    && match op
       case Write(meta, data, copied) =>
         |meta| == HEADER - 4 && (Count(data) == 0 || Unlapped(s, HEADER + Count(data)))
       case Open => s.headIntact
       case Close(reader) => reader < |s.readers|
       case Read(reader, count, works) => reader < |s.readers|
  }

  /** The entry a read looks at fits the ring. */
  ghost predicate EntryFits(s: State, op: Op) {
    op.Read? && op.reader < |s.readers| && WellFormed(s) ==>
      var off := s.readers[op.reader].off;
      off == s.log.w || EntrySize(s.log.buf, off) <= |s.log.buf|
  }

  ghost function Step(s: State, op: Op): State
    requires Allowed(s, op) && EntryFits(s, op)
  {
    match op
    case Write(meta, data, copied) =>
      State(AfterWrite(s.log, meta, data, copied), s.readers,
            SentAfter(s.sent, meta, data, copied),
            s.headIntact && (Count(data) == 0 || |Bytes(s.sent)| + HEADER + Count(data) < |s.log.buf|))
    case Open => s.(readers := s.readers + [Reader(s.log.head, [])])
    case Close(reader) => s.(readers := s.readers[..reader] + s.readers[reader + 1..])
    case Read(reader, count, works) =>
      s.(readers := s.readers[reader := AfterRead(s.log, s.readers[reader], count, works)])
  }

  /** At `off` the records from number `next` on can be read, and nothing else. */
  ghost predicate StandsAt(log: Log, sent: seq<seq<Byte>>, off: nat, next: nat) {
    log.w < |log.buf| && off < |log.buf| && next <= |sent| && Readable(log.buf, off, log.w) == Bytes(sent[next..])
  }

  /** The reader was given the first of the records sent, in order, and can read exactly the others. */
  ghost predicate InStep(log: Log, sent: seq<seq<Byte>>, r: Reader) {
    r.got <= sent && StandsAt(log, sent, r.off, |r.got|)
  }

  ghost predicate Inv(s: State) {
    && WellFormed(s) && AreRecords(s.sent)
    && (s.headIntact ==> InStep(s.log, s.sent, Reader(s.log.head, [])) && |Bytes(s.sent)| < |s.log.buf|)
    && forall j :: 0 <= j < |s.readers| ==> InStep(s.log, s.sent, s.readers[j])
  }

  /** What is sent after a write. */
  function SentAfter(sent: seq<seq<Byte>>, meta: seq<Byte>, data: seq<Byte>, copied: nat): seq<seq<Byte>>
    requires |meta| == HEADER - 4
  {
    if Succeeds(data, copied) then sent + [Frame(meta, data)] else sent
  }

  /** A write that does not reach an offset leaves what can be read there, with its own record behind if it succeeds. */
  lemma WriteKeepsStanding(log: Log, sent: seq<seq<Byte>>, off: nat, next: nat,
                           meta: seq<Byte>, data: seq<Byte>, copied: nat)
    requires StandsAt(log, sent, off, next) && |meta| == HEADER - 4 && HEADER + Count(data) <= |log.buf|
    requires Count(data) > 0 ==> Dist(off, log.w, |log.buf|) + HEADER + Count(data) < |log.buf|
    ensures StandsAt(AfterWrite(log, meta, data, copied), SentAfter(sent, meta, data, copied), off, next)
  {
    var frame := Frame(meta, data);
    if Succeeds(data, copied) {
      PutAppends(log.buf, off, log.w, frame);
      BytesOfSplit(sent[next..], [frame]);
      BytesOfOne(frame);
      assert (sent + [frame])[next..] == sent[next..] + [frame];
    } else if Count(data) > 0 {
      PutPastEnd(log.buf, off, log.w, frame[..HEADER + copied]);
    }
  }

  lemma WriteKeepsInStep(log: Log, sent: seq<seq<Byte>>, r: Reader, meta: seq<Byte>, data: seq<Byte>, copied: nat)
    requires InStep(log, sent, r) && |meta| == HEADER - 4 && HEADER + Count(data) <= |log.buf|
    requires Count(data) > 0 ==> Dist(r.off, log.w, |log.buf|) + HEADER + Count(data) < |log.buf|
    ensures InStep(AfterWrite(log, meta, data, copied), SentAfter(sent, meta, data, copied), r)
  {
    WriteKeepsStanding(log, sent, r.off, |r.got|, meta, data, copied);
  }

  lemma NextToRead(log: Log, sent: seq<seq<Byte>>, r: Reader)
    requires InStep(log, sent, r) && AreRecords(sent) && HEADER <= |log.buf| && r.off != log.w
    ensures |r.got| < |sent| && EntrySize(log.buf, r.off) == |sent[|r.got|]| <= Dist(r.off, log.w, |log.buf|)
    ensures Get(log.buf, r.off, |sent[|r.got|]|) == sent[|r.got|]
    ensures InStep(log, sent, Reader(Ahead(r.off, |sent[|r.got|]|, |log.buf|), r.got + [sent[|r.got|]]))
  {
    FirstEntry(log.buf, r.off, log.w, sent[|r.got|..]);
    assert sent[|r.got|..][1..] == sent[|r.got| + 1..];
  }

  lemma InvReadies(s: State, op: Op)
    requires Inv(s)
    ensures EntryFits(s, op)
  {
    if op.Read? && op.reader < |s.readers| && s.readers[op.reader].off != s.log.w {
      NextToRead(s.log, s.sent, s.readers[op.reader]);
    }
  }

  lemma WriteKeepsInv(s: State, meta: seq<Byte>, data: seq<Byte>, copied: nat)
    requires Inv(s) && Allowed(s, Write(meta, data, copied))
    ensures Inv(Step(s, Write(meta, data, copied)))
  {
    var s' := Step(s, Write(meta, data, copied));
    forall j | 0 <= j < |s'.readers| ensures InStep(s'.log, s'.sent, s'.readers[j]) {
      WriteKeepsInStep(s.log, s.sent, s.readers[j], meta, data, copied);
    }
    if s'.headIntact {
      WriteKeepsInStep(s.log, s.sent, Reader(s.log.head, []), meta, data, copied);
      if Succeeds(data, copied) {
        BytesOfSplit(s.sent, [Frame(meta, data)]);
        BytesOfOne(Frame(meta, data));
      }
    }
  }

  lemma ReadKeepsInv(s: State, reader: nat, count: nat, works: bool)
    requires Inv(s) && Allowed(s, Read(reader, count, works)) && EntryFits(s, Read(reader, count, works))
    ensures Inv(Step(s, Read(reader, count, works)))
  {
    if s.readers[reader].off != s.log.w {
      NextToRead(s.log, s.sent, s.readers[reader]);
    }
  }

  lemma StepKeepsInv(s: State, op: Op)
    requires Inv(s) && Allowed(s, op)
    ensures EntryFits(s, op) && Inv(Step(s, op))
  {
    InvReadies(s, op);
    match op
    case Write(meta, data, copied) => WriteKeepsInv(s, meta, data, copied);
    case Open =>
    case Close(reader) =>
    case Read(reader, count, works) => ReadKeepsInv(s, reader, count, works);
  }

  /** A reader that was closed does not stand in the way of a write, and the others stay as they are. */
  lemma CloseFrees(s: State, reader: nat, meta: seq<Byte>, data: seq<Byte>, copied: nat)
    requires Allowed(s, Close(reader)) && EntryFits(s, Close(reader)) && |meta| == 28
    requires 32 + |Cut(data)| < |s.log.buf| && forall j :: 0 <= j < |s.readers| && j != reader ==>
      Dist(s.readers[j].off, s.log.w, |s.log.buf|) + 32 + |Cut(data)| < |s.log.buf|
    ensures var s' := Step(s, Close(reader));
      && Allowed(s', Write(meta, data, copied)) && s'.log == s.log && s'.sent == s.sent
      && |s'.readers| == |s.readers| - 1
      && forall j :: 0 <= j < |s'.readers| ==> s'.readers[j] == s.readers[if j < reader then j else j + 1]
  {
    assert |Frame(meta, data)| == 32 + |Cut(data)|;
  }

  // ---------------------------------------------------------------------------
  // Whole runs
  // ---------------------------------------------------------------------------

  /** create_log, with whatever bytes the allocation holds. */
  ghost predicate Created(s: State) {
    HEADER <= |s.log.buf| && s.log.w == 0 && s.log.head == 0 && s.readers == [] && s.sent == [] && s.headIntact
  }

  ghost predicate IsRun(ss: seq<State>, ops: seq<Op>) {
    && |ss| == |ops| + 1 && Created(ss[0])
    && forall i :: 0 <= i < |ops| ==> IsStep(ss[i], ops[i], ss[i + 1])
  }

  ghost predicate IsStep(s: State, op: Op, s': State) {
    Allowed(s, op) && EntryFits(s, op) && s' == Step(s, op)
  }

  /** The records of the writes that succeed. */
  function Accepted(ops: seq<Op>): seq<seq<Byte>>
  {
    if ops == [] then [] else Accepted(ops[..|ops| - 1]) + AcceptedBy(ops[|ops| - 1])
  }

  function AcceptedBy(op: Op): seq<seq<Byte>> {
    if op.Write? && |op.meta| == HEADER - 4 && Succeeds(op.data, op.copied) then [Frame(op.meta, op.data)] else []
  }

  lemma RunPrefix(ss: seq<State>, ops: seq<Op>)
    requires IsRun(ss, ops) && ops != []
    ensures IsRun(ss[..|ops|], ops[..|ops| - 1]) && IsStep(ss[|ops| - 1], ops[|ops| - 1], ss[|ops|])
  {
    var n := |ops| - 1;
    forall i | 0 <= i < n ensures IsStep(ss[..n + 1][i], ops[..n][i], ss[..n + 1][i + 1]) {
      assert IsStep(ss[i], ops[i], ss[i + 1]);
    }
  }

  lemma StepSends(s: State, op: Op)
    requires Allowed(s, op) && EntryFits(s, op)
    ensures Step(s, op).sent == s.sent + AcceptedBy(op)
  {
  }

  lemma {:induction false} RunInv(ss: seq<State>, ops: seq<Op>)
    requires IsRun(ss, ops)
    ensures Inv(ss[|ops|]) && ss[|ops|].sent == Accepted(ops)
  {
    if ops == [] {
      CreatedInv(ss[0]);
    } else {
      var n := |ops| - 1;
      RunPrefix(ss, ops);
      RunInv(ss[..n + 1], ops[..n]);
      StepKeepsInv(ss[n], ops[n]);
      StepSends(ss[n], ops[n]);
    }
  }

  lemma CreatedInv(s: State)
    requires Created(s)
    ensures Inv(s)
  {
  }

  /** The bytes of all writes that have some data, whether their copies work or not. */
  function Attempted(ops: seq<Op>): nat {
    if ops == [] then 0
    else
      var op := ops[|ops| - 1];
      Attempted(ops[..|ops| - 1]) + if op.Write? && op.data != [] then 32 + |Cut(op.data)| else 0
  }

  /** A log can be opened at least until its writes have gone once round the ring. */
  lemma {:induction false} OpensUntilFull(ss: seq<State>, ops: seq<Op>)
    requires IsRun(ss, ops)
    ensures |Bytes(ss[|ops|].sent)| <= Attempted(ops)
    ensures Attempted(ops) < |ss[0].log.buf| ==> ss[|ops|].headIntact && Allowed(ss[|ops|], Open)
    ensures |ss[|ops|].log.buf| == |ss[0].log.buf|
  {
    if ops != [] {
      var n := |ops| - 1;
      RunPrefix(ss, ops);
      OpensUntilFull(ss[..n + 1], ops[..n]);
      StepAttempts(ss[n], ops[n]);
      RunInv(ss, ops);
    }
  }

  lemma StepAttempts(s: State, op: Op)
    requires Allowed(s, op) && EntryFits(s, op)
    ensures var n := if op.Write? && op.data != [] then 32 + |Cut(op.data)| else 0;
      && |Bytes(Step(s, op).sent)| <= |Bytes(s.sent)| + n && |Step(s, op).log.buf| == |s.log.buf|
      && (s.headIntact && |Bytes(s.sent)| + n < |s.log.buf| ==> Step(s, op).headIntact)
  {
    if op.Write? {
      var frame := Frame(op.meta, op.data);
      assert |frame| == 32 + |Cut(op.data)|;
      BytesOfSplit(s.sent, [frame]);
      BytesOfOne(frame);
    }
  }

  lemma SomethingLeft(rs: seq<seq<Byte>>)
    requires AreRecords(rs) && rs != []
    ensures Bytes(rs) != []
  {
    assert IsRecord(rs[0]);
  }

  /**
   In every run each reader has been given, in order, the first of the records
   accepted so far, byte for byte; one with nothing left to read was given all.
   */
  lemma Fifo(ss: seq<State>, ops: seq<Op>, reader: nat)
    requires IsRun(ss, ops) && reader < |ss[|ops|].readers|
    ensures var r := ss[|ops|].readers[reader];
      && r.got <= Accepted(ops)
      && (r.off == ss[|ops|].log.w <==> r.got == Accepted(ops))
  {
    RunInv(ss, ops);
    var s := ss[|ops|];
    var r := s.readers[reader];
    if r.off != s.log.w {
      NextToRead(s.log, s.sent, r);
    } else if |r.got| < |s.sent| {
      SomethingLeft(s.sent[|r.got|..]);
    }
  }

  /** The data of the writes that have some, and whose copies work, cut at 4096 bytes. */
  function Payloads(ops: seq<Op>): seq<seq<Byte>> {
    if ops == [] then [] else Payloads(ops[..|ops| - 1]) + PayloadOf(ops[|ops| - 1])
  }

  function PayloadOf(op: Op): seq<seq<Byte>> {
    if op.Write? && |op.meta| == 28 && op.data != [] && op.copied >= |Cut(op.data)| then [Cut(op.data)] else []
  }

  lemma {:induction false} AcceptedCarry(ops: seq<Op>)
    ensures |Accepted(ops)| == |Payloads(ops)|
    ensures forall k :: 0 <= k < |Accepted(ops)| ==>
      IsRecord(Accepted(ops)[k]) && Accepted(ops)[k][HEADER..] == Payloads(ops)[k]
  {
    if ops != [] {
      AcceptedCarry(ops[..|ops| - 1]);
      var op := ops[|ops| - 1];
      if op.Write? && |op.meta| == 28 {
        assert |Frame(op.meta, op.data)| == 32 + |Cut(op.data)|;
      }
    }
  }

  /**
   In every run each reader has been given the data of the first of the writes that have
   some and whose copies work, in order, and all of it exactly if nothing is left to read.
   */
  lemma ReaderGetsData(ss: seq<State>, ops: seq<Op>, reader: nat)
    requires IsRun(ss, ops) && reader < |ss[|ops|].readers|
    ensures var r := ss[|ops|].readers[reader];
      && |r.got| <= |Payloads(ops)|
      && (forall k :: 0 <= k < |r.got| ==> IsRecord(r.got[k]) && r.got[k][HEADER..] == Payloads(ops)[k])
      && (r.off == ss[|ops|].log.w <==> |r.got| == |Payloads(ops)|)
  {
    Fifo(ss, ops, reader);
    AcceptedCarry(ops);
  }

  /**
   In every run, a read with room for the next record and working copies gets it; short of
   room it gets -EINVAL. With every record given it is told to come again.
   */
  lemma ReadGivesNext(ss: seq<State>, ops: seq<Op>, reader: nat, count: nat, works: bool)
    requires IsRun(ss, ops) && reader < |ss[|ops|].readers|
    ensures WellFormed(ss[|ops|])
    ensures var s := ss[|ops|]; var r := s.readers[reader];
      && s.sent == Accepted(ops) && |r.got| <= |s.sent|
      && (r.off != s.log.w ==> EntrySize(s.log.buf, r.off) <= |s.log.buf|)
      && ReadAt(s.log, r.off, count, works) ==
           if |r.got| == |s.sent| then Again
           else if count < |s.sent[|r.got|]| then Invalid else if works then Given(s.sent[|r.got|]) else Fault
  {
    RunInv(ss, ops);
    Fifo(ss, ops, reader);
    var s := ss[|ops|];
    if s.readers[reader].off != s.log.w {
      NextToRead(s.log, s.sent, s.readers[reader]);
    }
  }

  /** A write whose copy fails leaves every offset, and every reader's readable bytes, as they were. */
  lemma FailedWriteIsInvisible(s: State, meta: seq<Byte>, data: seq<Byte>, copied: nat, reader: nat)
    requires Allowed(s, Write(meta, data, copied)) && copied < Count(data) && reader < |s.readers|
    ensures var s' := Step(s, Write(meta, data, copied));
      && s'.log.w == s.log.w && s'.log.head == s.log.head && s'.readers == s.readers
      && Readable(s'.log.buf, s.readers[reader].off, s.log.w) == Readable(s.log.buf, s.readers[reader].off, s.log.w)
  {
    PutPastEnd(s.log.buf, s.readers[reader].off, s.log.w, Frame(meta, data)[..HEADER + copied]);
  }
}
