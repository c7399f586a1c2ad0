/**
 Runs of the log of logger.c in which every write is preceded by fix_up_readers,
 the call that the driver has commented out. Then nobody needs to keep from
 lapping the readers: one that is too slow misses whole records.
 */
module FixedUpRuns {
  import opened Ring
  import opened LogRuns

  /** The log, its readers, and the records accepted so far; opens are possible at any time. */
  datatype Fixing = Fixing(log: Log, readers: seq<Reader>, sent: seq<seq<Byte>>)

  /** `a` is what is left of `b` when some of its elements are dropped. */
  ghost predicate IsSubsequence<T>(a: seq<T>, b: seq<T>)
    decreases |b|
  {
    || a == []
    || (b != [] && IsSubsequence(a, b[..|b| - 1]))
    || (b != [] && a[|a| - 1] == b[|b| - 1] && IsSubsequence(a[..|a| - 1], b[..|b| - 1]))
  }

  lemma {:induction false} SubsequenceOfMore<T>(a: seq<T>, b: seq<T>, c: seq<T>)
    requires IsSubsequence(a, b)
    ensures IsSubsequence(a, b + c)
    decreases |c|
  {
    if c == [] {
      assert b + c == b;
    } else {
      SubsequenceOfMore(a, b, c[..|c| - 1]);
      assert (b + c)[..|b + c| - 1] == b + c[..|c| - 1];
    }
  }

  lemma SubsequenceWithNext<T>(a: seq<T>, b: seq<T>, x: T)
    requires IsSubsequence(a, b)
    ensures IsSubsequence(a + [x], b + [x])
  {
    assert (a + [x])[..|a|] == a && (b + [x])[..|b|] == b;
  }

  // ---------------------------------------------------------------------------
  // The calls
  // ---------------------------------------------------------------------------

  ghost predicate Allowed(s: Fixing, op: Op) {
    && HEADER <= |s.log.buf| && s.log.w < |s.log.buf| && s.log.head < |s.log.buf|
    && (forall j :: 0 <= j < |s.readers| ==> s.readers[j].off < |s.log.buf|)
    && match op
       case Write(meta, data, copied) => |meta| == HEADER - 4 && 2 * (HEADER + Count(data)) <= |s.log.buf|
       case Open => true
       case Close(reader) => reader < |s.readers|
       case Read(reader, count, works) =>
         && reader < |s.readers|
         && var off := s.readers[reader].off;
            off == s.log.w || EntrySize(s.log.buf, off) <= |s.log.buf|
  }

  ghost function FixedLog(log: Log, len: nat): Log
    requires HEADER <= |log.buf| && log.w < |log.buf| && log.head < |log.buf|
  {
    log.(head := FixedUp(log.buf, log.w, len, log.head))
  }

  ghost function FixedReader(log: Log, len: nat, r: Reader): Reader
    requires HEADER <= |log.buf| && log.w < |log.buf| && r.off < |log.buf|
  {
    r.(off := FixedUp(log.buf, log.w, len, r.off))
  }

  ghost function Step(s: Fixing, op: Op): Fixing
    requires Allowed(s, op)
  {
    match op
    case Write(meta, data, copied) =>
      if Count(data) == 0 then s
      else
        var len := HEADER + Count(data);
        Fixing(AfterWrite(FixedLog(s.log, len), meta, data, copied),
               seq(|s.readers|, j requires 0 <= j < |s.readers| => FixedReader(s.log, len, s.readers[j])),
               SentAfter(s.sent, meta, data, copied))
    case Open => s.(readers := s.readers + [Reader(s.log.head, [])])
    case Close(reader) => s.(readers := s.readers[..reader] + s.readers[reader + 1..])
    case Read(reader, count, works) =>
      s.(readers := s.readers[reader := AfterRead(s.log, s.readers[reader], count, works)])
  }

  // ---------------------------------------------------------------------------
  // What a reader is given
  // ---------------------------------------------------------------------------

  ghost predicate Stands(log: Log, sent: seq<seq<Byte>>, off: nat) {
    exists next :: StandsAt(log, sent, off, next)
  }

  ghost predicate KeepsUpAt(log: Log, sent: seq<seq<Byte>>, r: Reader, next: nat) {
    StandsAt(log, sent, r.off, next) && IsSubsequence(r.got, sent[..next])
  }

  /** The reader was given some of the records before the one it stands at, in order. */
  ghost predicate KeepsUp(log: Log, sent: seq<seq<Byte>>, r: Reader) {
    exists next :: KeepsUpAt(log, sent, r, next)
  }

  ghost predicate Inv(s: Fixing) {
    && HEADER <= |s.log.buf| && s.log.head < |s.log.buf| && AreRecords(s.sent)
    && Stands(s.log, s.sent, s.log.head)
    && forall j :: 0 <= j < |s.readers| ==> KeepsUp(s.log, s.sent, s.readers[j])
  }

  lemma FixUpKeepsStanding(log: Log, sent: seq<seq<Byte>>, off: nat, next: nat, len: nat) returns (next': nat)
    requires StandsAt(log, sent, off, next) && AreRecords(sent) && HEADER <= len && 2 * len <= |log.buf|
    ensures next <= next' && StandsAt(log, sent, FixedUp(log.buf, log.w, len, off), next')
    ensures Dist(FixedUp(log.buf, log.w, len, off), log.w, |log.buf|) + len < |log.buf|
  {
    var k := FixUpMoves(log.buf, log.w, off, sent[next..], len);
    next' := next + k;
    assert sent[next..][k..] == sent[next'..];
  }

  lemma FixUpKeepsUp(log: Log, sent: seq<seq<Byte>>, r: Reader, len: nat) returns (next: nat)
    requires KeepsUp(log, sent, r) && AreRecords(sent) && HEADER <= len && 2 * len <= |log.buf|
    ensures KeepsUpAt(log, sent, FixedReader(log, len, r), next)
    ensures Dist(FixedReader(log, len, r).off, log.w, |log.buf|) + len < |log.buf|
  {
    var before: nat :| KeepsUpAt(log, sent, r, before);
    next := FixUpKeepsStanding(log, sent, r.off, before, len);
    SubsequenceOfMore(r.got, sent[..before], sent[before..next]);
    assert sent[..before] + sent[before..next] == sent[..next];
  }

  lemma WriteKeepsUpAt(log: Log, sent: seq<seq<Byte>>, r: Reader, next: nat,
                       meta: seq<Byte>, data: seq<Byte>, copied: nat)
    requires KeepsUpAt(log, sent, r, next) && |meta| == HEADER - 4 && Count(data) > 0
    requires Dist(r.off, log.w, |log.buf|) + HEADER + Count(data) < |log.buf|
    ensures KeepsUp(AfterWrite(log, meta, data, copied), SentAfter(sent, meta, data, copied), r)
  {
    WriteKeepsStanding(log, sent, r.off, next, meta, data, copied);
    assert SentAfter(sent, meta, data, copied)[..next] == sent[..next];
    assert KeepsUpAt(AfterWrite(log, meta, data, copied), SentAfter(sent, meta, data, copied), r, next);
  }

  /** One reader through a write that is preceded by fix_up_readers. */
  lemma WriteKeepsUp(log: Log, sent: seq<seq<Byte>>, r: Reader, meta: seq<Byte>, data: seq<Byte>, copied: nat)
    requires KeepsUp(log, sent, r) && AreRecords(sent) && |meta| == HEADER - 4 && Count(data) > 0
    requires log.head < |log.buf| && 2 * (HEADER + Count(data)) <= |log.buf|
    ensures KeepsUp(AfterWrite(FixedLog(log, HEADER + Count(data)), meta, data, copied),
                    SentAfter(sent, meta, data, copied), FixedReader(log, HEADER + Count(data), r))
  {
    var len := HEADER + Count(data);
    var next := FixUpKeepsUp(log, sent, r, len);
    var r', fixed := FixedReader(log, len, r), FixedLog(log, len);
    assert StandsAt(fixed, sent, r'.off, next);
    WriteKeepsUpAt(fixed, sent, r', next, meta, data, copied);
  }

  lemma ReadKeepsUpAt(log: Log, sent: seq<seq<Byte>>, r: Reader, next: nat)
    requires KeepsUpAt(log, sent, r, next) && AreRecords(sent) && HEADER <= |log.buf| && r.off != log.w
    ensures next < |sent| && EntrySize(log.buf, r.off) == |sent[next]| <= |log.buf|
    ensures Get(log.buf, r.off, |sent[next]|) == sent[next]
    ensures KeepsUpAt(log, sent, Reader(Ahead(r.off, |sent[next]|, |log.buf|), r.got + [sent[next]]), next + 1)
  {
    FirstEntry(log.buf, r.off, log.w, sent[next..]);
    assert sent[next..][1..] == sent[next + 1..] && sent[..next + 1] == sent[..next] + [sent[next]];
    SubsequenceWithNext(r.got, sent[..next], sent[next]);
  }

  lemma ReadKeepsUp(log: Log, sent: seq<seq<Byte>>, r: Reader, count: nat, works: bool)
    requires KeepsUp(log, sent, r) && AreRecords(sent) && HEADER <= |log.buf|
    ensures r.off == log.w || EntrySize(log.buf, r.off) <= |log.buf|
    ensures KeepsUp(log, sent, AfterRead(log, r, count, works))
  {
    var next: nat :| KeepsUpAt(log, sent, r, next);
    if r.off != log.w {
      ReadKeepsUpAt(log, sent, r, next);
    }
  }

  lemma WriteKeepsInv(s: Fixing, meta: seq<Byte>, data: seq<Byte>, copied: nat)
    requires Inv(s) && Allowed(s, Write(meta, data, copied))
    ensures Inv(Step(s, Write(meta, data, copied)))
  {
    if Count(data) > 0 {
      var s' := Step(s, Write(meta, data, copied));
      forall j | 0 <= j < |s'.readers| ensures KeepsUp(s'.log, s'.sent, s'.readers[j]) {
        WriteKeepsUp(s.log, s.sent, s.readers[j], meta, data, copied);
      }
      HeadKeepsUp(s.log, s.sent);
      WriteKeepsUp(s.log, s.sent, Reader(s.log.head, []), meta, data, copied);
    }
  }

  lemma HeadKeepsUp(log: Log, sent: seq<seq<Byte>>)
    requires Stands(log, sent, log.head)
    ensures KeepsUp(log, sent, Reader(log.head, []))
  {
    var next: nat :| StandsAt(log, sent, log.head, next);
    assert KeepsUpAt(log, sent, Reader(log.head, []), next);
  }

  lemma StepKeepsInv(s: Fixing, op: Op)
    requires Inv(s) && Allowed(s, op)
    ensures Inv(Step(s, op))
  {
    match op
    case Write(meta, data, copied) => WriteKeepsInv(s, meta, data, copied);
    case Open => HeadKeepsUp(s.log, s.sent);
    case Close(_) =>
    case Read(reader, count, works) => ReadKeepsUp(s.log, s.sent, s.readers[reader], count, works);
  }

  // ---------------------------------------------------------------------------
  // Whole runs
  // ---------------------------------------------------------------------------

  ghost predicate Created(s: Fixing) {
    HEADER <= |s.log.buf| && s.log.w == 0 && s.log.head == 0 && s.readers == [] && s.sent == []
  }

  ghost predicate IsStep(s: Fixing, op: Op, s': Fixing) {
    Allowed(s, op) && s' == Step(s, op)
  }

  ghost predicate IsRun(ss: seq<Fixing>, ops: seq<Op>) {
    && |ss| == |ops| + 1 && Created(ss[0])
    && forall i :: 0 <= i < |ops| ==> IsStep(ss[i], ops[i], ss[i + 1])
  }

  lemma StepSends(s: Fixing, op: Op)
    requires Allowed(s, op)
    ensures Step(s, op).sent == s.sent + AcceptedBy(op)
  {
  }

  lemma AcceptedNext(ops: seq<Op>, i: nat)
    requires 0 < i <= |ops|
    ensures Accepted(ops[..i]) == Accepted(ops[..i - 1]) + AcceptedBy(ops[i - 1])
  {
    assert ops[..i][..i - 1] == ops[..i - 1];
  }

  lemma {:induction false} RunInv(ss: seq<Fixing>, ops: seq<Op>, i: nat)
    requires IsRun(ss, ops) && i < |ss|
    ensures Inv(ss[i]) && ss[i].sent == Accepted(ops[..i])
  {
    if i == 0 {
      assert StandsAt(ss[0].log, ss[0].sent, ss[0].log.head, 0);
    } else {
      RunInv(ss, ops, i - 1);
      assert IsStep(ss[i - 1], ops[i - 1], ss[i]);
      StepKeepsInv(ss[i - 1], ops[i - 1]);
      StepSends(ss[i - 1], ops[i - 1]);
      AcceptedNext(ops, i);
    }
  }

  lemma GotSome(log: Log, sent: seq<seq<Byte>>, r: Reader)
    requires KeepsUp(log, sent, r)
    ensures IsSubsequence(r.got, sent)
  {
    var next: nat :| KeepsUpAt(log, sent, r, next);
    SubsequenceOfMore(r.got, sent[..next], sent[next..]);
    assert sent[..next] + sent[next..] == sent;
  }

  lemma ReadIsAllowed(s: Fixing, reader: nat, count: nat, works: bool)
    requires Inv(s) && reader < |s.readers|
    ensures Allowed(s, Read(reader, count, works))
  {
    forall j | 0 <= j < |s.readers| ensures s.readers[j].off < |s.log.buf| {
      assert KeepsUp(s.log, s.sent, s.readers[j]);
    }
    ReadKeepsUp(s.log, s.sent, s.readers[reader], count, works);
  }

  /**
   In every such run, with records up to half the ring and readers as slow as they
   like, a reader is given accepted records only, whole, in order and none twice; and
   the calls never look at an entry that does not fit the ring.
   */
  lemma NoTornRecords(ss: seq<Fixing>, ops: seq<Op>, i: nat, reader: nat)
    requires IsRun(ss, ops) && i < |ss| && reader < |ss[i].readers|
    ensures IsSubsequence(ss[i].readers[reader].got, Accepted(ops[..i]))
    ensures forall count, works :: Allowed(ss[i], Read(reader, count, works))
  {
    RunInv(ss, ops, i);
    var s := ss[i];
    GotSome(s.log, s.sent, s.readers[reader]);
    forall count, works ensures Allowed(s, Read(reader, count, works)) {
      ReadIsAllowed(s, reader, count, works);
    }
  }
}
