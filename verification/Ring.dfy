/**
 The log ring of logger.c on values: bytes placed and fetched around the wrap,
 framed records, and what a reader that stands at an offset can read.
 */
module Ring {

  newtype Byte = x: int | 0 <= x < 256

  /** sizeof(struct logger_entry): two 16-bit, six 32-bit fields and a kuid_t. */
  const HEADER := 32

  const MAX_PAYLOAD := 4096

  // ---------------------------------------------------------------------------
  // logger_offset: a mask that is a remainder, because the size is a power of two
  // ---------------------------------------------------------------------------

  function Pow2(k: nat): (p: nat)
    ensures p > 0
  {
    if k == 0 then 1 else 2 * Pow2(k - 1)
  }

  /** Bitwise and of two unsigned numbers. */
  function And(a: nat, b: nat): nat {
    if a == 0 || b == 0 then 0 else (a % 2) * (b % 2) + 2 * And(a / 2, b / 2)
  }

  lemma ModDouble(a: nat, m: nat)
    requires m > 0
    ensures a % (2 * m) == a % 2 + 2 * (a / 2 % m)
  {
    var q, r := a / 2 / m, a / 2 % m;
    assert a == 2 * (q * m + r) + a % 2;
    assert a == q * (2 * m) + (2 * r + a % 2);
    ModUnique(a, 2 * m, q, 2 * r + a % 2);
  }

  lemma AtLeastOnce(x: nat, m: nat)
    requires x >= 1
    ensures x * m >= m
  {
    assert x * m == (x - 1) * m + m;
  }

  lemma ModUnique(a: nat, m: nat, q: nat, r: nat)
    requires m > 0 && a == q * m + r && r < m
    ensures a % m == r
  {
    var p := a / m;
    if q > p {
      AtLeastOnce(q - p, m);
    } else if q < p {
      AtLeastOnce(p - q, m);
    }
  }

  /** The lowest bit of a mask whose other bits mask half the number. */
  lemma AndOdd(n: nat, m: nat)
    requires m > 0
    ensures And(n, 2 * m - 1) == n % 2 + 2 * And(n / 2, m - 1)
  {
    assert (2 * m - 1) / 2 == m - 1 && (2 * m - 1) % 2 == 1;
  }

  lemma MaskDoubles(n: nat, m: nat)
    requires m > 0 && And(n / 2, m - 1) == n / 2 % m
    ensures And(n, 2 * m - 1) == n % (2 * m)
  {
    AndOdd(n, m);
    ModDouble(n, m);
  }

  /** Masking with the size less one takes the remainder. */
  lemma {:induction false} MaskIsMod(n: nat, k: nat)
    ensures And(n, Pow2(k) - 1) == n % Pow2(k)
  {
    if k > 0 {
      MaskIsMod(n / 2, k - 1);
      MaskDoubles(n, Pow2(k - 1));
    }
  }

  // ---------------------------------------------------------------------------
  // Offsets in a ring of `size` bytes
  // ---------------------------------------------------------------------------

  /** The offset `n` bytes on, for at most one turn. */
  function Ahead(off: nat, n: nat, size: nat): (r: nat)
    requires off < size && n <= size
    ensures r < size
  {
    if off + n < size then off + n else off + n - size
  }

  /** How many bytes lie from `off` on before `w` is reached. */
  function Dist(off: nat, w: nat, size: nat): (d: nat)
    requires off < size && w < size
    ensures d < size && Ahead(off, d, size) == w
  {
    if off <= w then w - off else size - (off - w)
  }

  /** `n` bytes from `off` on, as two copies when they pass the end. */
  function Get(buf: seq<Byte>, off: nat, n: nat): (b: seq<Byte>)
    requires off < |buf| && n <= |buf|
    ensures |b| == n
  {
    if off + n <= |buf| then buf[off..off + n] else buf[off..] + buf[..n - (|buf| - off)]
  }

  lemma GetAt(buf: seq<Byte>, off: nat, n: nat)
    requires off < |buf| && n <= |buf|
    ensures forall i :: 0 <= i < n ==> Get(buf, off, n)[i] == buf[Ahead(off, i, |buf|)]
  {
  }

  /** The ring with `b` stored from `off` on, as two copies when it passes the end. */
  function Put(buf: seq<Byte>, off: nat, b: seq<Byte>): (r: seq<Byte>)
    requires off < |buf| && |b| <= |buf|
    ensures |r| == |buf|
  {
    var room := |buf| - off;
    if |b| <= room then buf[..off] + b + buf[off + |b|..] else b[room..] + buf[|b| - room..off] + b[..room]
  }

  /** The byte at `i` is the one stored there, if `i` is within reach of `off`, or else stays. */
  lemma PutAt(buf: seq<Byte>, off: nat, b: seq<Byte>)
    requires off < |buf| && |b| <= |buf|
    ensures forall i :: 0 <= i < |buf| ==>
      Put(buf, off, b)[i] == if Dist(off, i, |buf|) < |b| then b[Dist(off, i, |buf|)] else buf[i]
  {
  }

  /** The bytes of a payload that lie inside the buffer, up to its end and once more from its start. */
  predicate PayloadInBounds(size: nat, start: nat, n: nat)
    requires start < size
  {
    var len := if n <= size - start then n else size - start;
    start + len <= size && n - len <= size
  }

  /** Both copies of a payload stay inside exactly up to this length, which nothing compares it with. */
  lemma PayloadBound(size: nat, start: nat, n: nat)
    requires start < size
    ensures PayloadInBounds(size, start, n) <==> n <= 2 * size - start
  {
  }

  /** The rings of 1024 bytes do not take the longest payload, even when they are empty. */
  lemma SmallRingOverruns()
    ensures Pow2(10) == 1024 && !PayloadInBounds(1024, Ahead(0, HEADER, 1024), MAX_PAYLOAD)
  {
    assert Pow2(5) == 32;
  }

  /** The ring after both copies, of which the second may run over the first. */
  function Poured(buf: seq<Byte>, off: nat, b: seq<Byte>): (r: seq<Byte>)
    requires off < |buf| && PayloadInBounds(|buf|, off, |b|)
    ensures |r| == |buf|
  {
    var room := |buf| - off;
    if |b| <= room then buf[..off] + b + buf[off + |b|..]
    else b[room..] + (buf[..off] + b[..room])[|b| - room..]
  }

  /** Bytes that fit the ring are stored around the wrap. */
  lemma PouredIsPut(buf: seq<Byte>, off: nat, b: seq<Byte>)
    requires off < |buf| && |b| <= |buf|
    ensures Poured(buf, off, b) == Put(buf, off, b)
  {
    var room := |buf| - off;
    if |b| > room {
      assert (buf[..off] + b[..room])[|b| - room..] == buf[|b| - room..off] + b[..room];
    }
  }

  /** The byte at `i` is the last of those stored there, or stays. */
  lemma PouredAt(buf: seq<Byte>, off: nat, b: seq<Byte>, i: nat)
    requires off < |buf| && PayloadInBounds(|buf|, off, |b|) && i < |buf|
    ensures var d := Dist(off, i, |buf|);
      Poured(buf, off, b)[i] == if d + |buf| < |b| then b[d + |buf|] else if d < |b| then b[d] else buf[i]
  {
  }

  // ---------------------------------------------------------------------------
  // Records
  // ---------------------------------------------------------------------------

  /** The `len` field, the first sixteen bits. */
  function LenField(header: seq<Byte>): (n: nat)
    requires |header| >= 2
    ensures n < 65536
  {
    header[0] as nat + 256 * header[1] as nat
  }

  /** A header as it lies in memory; `meta` is the pid, tid, times and euid, which nothing here interprets. */
  function Header(len: nat, meta: seq<Byte>): (h: seq<Byte>)
    requires len < 65536 && |meta| == HEADER - 4
    ensures |h| == HEADER && LenField(h) == len
    ensures h[2] as int + 256 * h[3] as int == HEADER && h[4..] == meta
  {
    [(len % 256) as Byte, (len / 256) as Byte, HEADER as Byte, 0] + meta
  }

  /** A header followed by the payload it announces. */
  predicate IsRecord(r: seq<Byte>) {
    |r| >= HEADER && |r| == HEADER + LenField(r)
  }

  predicate AreRecords(rs: seq<seq<Byte>>) {
    forall i :: 0 <= i < |rs| ==> IsRecord(rs[i])
  }

  function Bytes(rs: seq<seq<Byte>>): seq<Byte> {
    if rs == [] then [] else rs[0] + Bytes(rs[1..])
  }

  lemma {:induction false} BytesOfSplit(xs: seq<seq<Byte>>, ys: seq<seq<Byte>>)
    ensures Bytes(xs + ys) == Bytes(xs) + Bytes(ys)
  {
    if xs == [] {
      assert xs + ys == ys;
    } else {
      assert (xs + ys)[1..] == xs[1..] + ys;
      BytesOfSplit(xs[1..], ys);
    }
  }

  lemma BytesOfOne(r: seq<Byte>)
    ensures Bytes([r]) == r
  {
    assert Bytes([r][1..]) == [];
  }

  // ---------------------------------------------------------------------------
  // What a reader can read
  // ---------------------------------------------------------------------------

  /** The bytes from a reader's offset up to the write offset. */
  function Readable(buf: seq<Byte>, off: nat, w: nat): (b: seq<Byte>)
    requires off < |buf| && w < |buf|
    ensures |b| == Dist(off, w, |buf|)
  {
    Get(buf, off, Dist(off, w, |buf|))
  }

  /** A write that does not reach the reader's offset is appended to what it can read. */
  lemma PutAppends(buf: seq<Byte>, off: nat, w: nat, b: seq<Byte>)
    requires off < |buf| && w < |buf| && Dist(off, w, |buf|) + |b| < |buf|
    ensures Readable(Put(buf, w, b), off, Ahead(w, |b|, |buf|)) == Readable(buf, off, w) + b
  {
    PutAt(buf, w, b);
    GetAt(buf, off, Dist(off, w, |buf|));
    GetAt(Put(buf, w, b), off, Dist(off, w, |buf|) + |b|);
  }

  /** Bytes stored past the write offset, which has not moved, are not readable. */
  lemma PutPastEnd(buf: seq<Byte>, off: nat, w: nat, b: seq<Byte>)
    requires off < |buf| && w < |buf| && Dist(off, w, |buf|) + |b| <= |buf|
    ensures Readable(Put(buf, w, b), off, w) == Readable(buf, off, w)
  {
    PutAt(buf, w, b);
    GetAt(buf, off, Dist(off, w, |buf|));
    GetAt(Put(buf, w, b), off, Dist(off, w, |buf|));
  }

  /** Reading `n` bytes leaves the rest to read. */
  lemma GetTakes(buf: seq<Byte>, off: nat, w: nat, n: nat)
    requires off < |buf| && w < |buf| && n <= Dist(off, w, |buf|)
    ensures Readable(buf, off, w) == Get(buf, off, n) + Readable(buf, Ahead(off, n, |buf|), w)
    ensures Dist(Ahead(off, n, |buf|), w, |buf|) == Dist(off, w, |buf|) - n
  {
    GetAt(buf, off, Dist(off, w, |buf|));
    GetAt(buf, off, n);
    GetAt(buf, Ahead(off, n, |buf|), Dist(off, w, |buf|) - n);
  }

  // ---------------------------------------------------------------------------
  // Entries in the ring
  // ---------------------------------------------------------------------------

  /** Header and payload length of the entry at `off`. */
  function EntrySize(buf: seq<Byte>, off: nat): (n: nat)
    requires off < |buf| && HEADER <= |buf|
    ensures n >= HEADER
  {
    HEADER + LenField(Get(buf, off, HEADER))
  }

  /** The first record a reader has to read is the entry at its offset. */
  lemma FirstEntry(buf: seq<Byte>, off: nat, w: nat, rs: seq<seq<Byte>>)
    requires off < |buf| && w < |buf| && HEADER <= |buf| && AreRecords(rs)
    requires off != w && Readable(buf, off, w) == Bytes(rs)
    ensures rs != [] && EntrySize(buf, off) == |rs[0]| <= Dist(off, w, |buf|)
    ensures Get(buf, off, |rs[0]|) == rs[0]
    ensures Readable(buf, Ahead(off, |rs[0]|, |buf|), w) == Bytes(rs[1..])
  {
    assert IsRecord(rs[0]);
    var b := Readable(buf, off, w);
    assert b == rs[0] + Bytes(rs[1..]);
    assert b[0] == rs[0][0] && b[1] == rs[0][1];
    GetAt(buf, off, HEADER);
    GetAt(buf, off, |b|);
    GetTakes(buf, off, w, |rs[0]|);
    assert Get(buf, off, |rs[0]|) == b[..|rs[0]|] == rs[0];
    assert Readable(buf, Ahead(off, |rs[0]|, |buf|), w) == b[|rs[0]|..];
  }

  /** get_next_entry: the first entry boundary at least `len` bytes on; every entry takes at least a header. */
  function Skip(buf: seq<Byte>, off: nat, len: int): (r: nat)
    requires off < |buf| && HEADER <= |buf|
    ensures r < |buf|
    decreases len
  {
    var n := EntrySize(buf, off);
    var next := (off + n) % |buf|;
    if n < len then Skip(buf, next, len - n) else next
  }

  lemma SkipStep(buf: seq<Byte>, off: nat, len: int)
    requires off < |buf| && HEADER <= |buf|
    ensures (off + EntrySize(buf, off)) % |buf| < |buf|
    ensures Skip(buf, off, len) ==
      if EntrySize(buf, off) < len then Skip(buf, (off + EntrySize(buf, off)) % |buf|, len - EntrySize(buf, off))
      else (off + EntrySize(buf, off)) % |buf|
  {
  }

  /** The offset that get_next_entry ends at when `left` bytes are still to be skipped. */
  function SkipRest(buf: seq<Byte>, off: nat, left: int): (r: nat)
    requires off < |buf| && HEADER <= |buf|
    ensures r < |buf|
  {
    if left > 0 then Skip(buf, off, left) else off
  }

  lemma SkipRestStep(buf: seq<Byte>, off: nat, left: int)
    requires off < |buf| && HEADER <= |buf|
    ensures (off + EntrySize(buf, off)) % |buf| < |buf|
    ensures Skip(buf, off, left) == SkipRest(buf, (off + EntrySize(buf, off)) % |buf|, left - EntrySize(buf, off))
  {
    SkipStep(buf, off, left);
  }

  lemma AheadIsMod(off: nat, n: nat, size: nat)
    requires off < size && n <= size
    ensures Ahead(off, n, size) == (off + n) % size
  {
    ModUnique(off + n, size, if off + n < size then 0 else 1, Ahead(off, n, size));
  }

  /** The offset `n` bytes on, for at most two turns. */
  function Around(off: nat, n: nat, size: nat): (r: nat)
    requires off < size && off + n <= 2 * size
    ensures r < size
  {
    if off + n < size then off + n else if off + n < 2 * size then off + n - size else 0
  }

  lemma AroundIsMod(off: nat, n: nat, size: nat)
    requires off < size && off + n <= 2 * size
    ensures Around(off, n, size) == (off + n) % size
  {
    ModUnique(off + n, size, if off + n < size then 0 else if off + n < 2 * size then 1 else 2, Around(off, n, size));
  }

  lemma BytesOfTake(rs: seq<seq<Byte>>, k: nat)
    requires k < |rs|
    ensures |Bytes(rs[..k + 1])| == |rs[0]| + |Bytes(rs[1..][..k])|
  {
    assert rs[..k + 1][1..] == rs[1..][..k];
  }

  /** Among whole records, skipping drops the fewest that make up `len` bytes, and no more than there are. */
  lemma {:induction false} SkipDrops(buf: seq<Byte>, off: nat, w: nat, rs: seq<seq<Byte>>, len: int) returns (k: nat)
    requires off < |buf| && w < |buf| && HEADER <= |buf| && AreRecords(rs) && Readable(buf, off, w) == Bytes(rs)
    requires 0 < len <= Dist(off, w, |buf|)
    ensures 0 < k <= |rs| && Readable(buf, Skip(buf, off, len), w) == Bytes(rs[k..])
    ensures |Bytes(rs[..k - 1])| < len <= |Bytes(rs[..k])|
    decreases len
  {
    FirstEntry(buf, off, w, rs);
    var n, next := |rs[0]|, Ahead(off, |rs[0]|, |buf|);
    AheadIsMod(off, n, |buf|);
    if n < len {
      GetTakes(buf, off, w, n);
      k := SkipDrops(buf, next, w, rs[1..], len - n);
      BytesOfTake(rs, k);
      BytesOfTake(rs, k - 1);
      assert rs[1..][k..] == rs[k + 1..];
      k := k + 1;
    } else {
      k := 1;
      BytesOfTake(rs, 0);
    }
  }

  // ---------------------------------------------------------------------------
  // fix_up_readers
  // ---------------------------------------------------------------------------

  /** is_between. */
  predicate IsBetween(a: nat, b: nat, c: nat) {
    if a < b then a < c && c <= b else c <= b || a < c
  }

  /** After at least one step from `a`, `c` is met no later than `b`; when `a` and `b` are the same, always. */
  lemma BetweenIsAround(a: nat, b: nat, c: nat, size: nat)
    requires a < size && b < size && c < size
    ensures IsBetween(a, b, c) <==> a == b || 0 < Dist(a, c, size) <= Dist(a, b, size)
  {
  }

  /** What fix_up_readers makes of one offset before `len` bytes are written at `w`. */
  function FixedUp(buf: seq<Byte>, w: nat, len: nat, off: nat): (r: nat)
    requires w < |buf| && off < |buf| && HEADER <= |buf|
    ensures r < |buf|
  {
    if IsBetween(w, (w + len) % |buf|, off) then Skip(buf, off, len) else off
  }

  lemma FixUpMoves(buf: seq<Byte>, w: nat, off: nat, rs: seq<seq<Byte>>, len: nat) returns (k: nat)
    requires off < |buf| && w < |buf| && AreRecords(rs) && Readable(buf, off, w) == Bytes(rs)
    requires HEADER <= len && 2 * len <= |buf|
    ensures k <= |rs| && (k > 0 ==> 0 < Dist(w, off, |buf|) <= len && |Bytes(rs[..k - 1])| < len)
    ensures var fixed := FixedUp(buf, w, len, off); Readable(buf, fixed, w) == Bytes(rs[k..])
    ensures Dist(FixedUp(buf, w, len, off), w, |buf|) + len < |buf|
  {
    AheadIsMod(w, len, |buf|);
    BetweenIsAround(w, Ahead(w, len, |buf|), off, |buf|);
    if IsBetween(w, Ahead(w, len, |buf|), off) {
      k := SkipDrops(buf, off, w, rs, len);
      BytesOfSplit(rs[..k], rs[k..]);
      assert rs[..k] + rs[k..] == rs;
    } else {
      k := 0;
    }
  }

  /**
   A reader, or the head, with whole records to read still has whole records to
   read after fix_up_readers and the write: those that survive, then the new one.
   Nothing is dropped unless the write would reach its offset, and then the fewest
   records that make up the length written.
   */
  lemma FixUpIsSafe(buf: seq<Byte>, w: nat, off: nat, rs: seq<seq<Byte>>, rec: seq<Byte>) returns (k: nat)
    requires off < |buf| && w < |buf| && AreRecords(rs) && Readable(buf, off, w) == Bytes(rs)
    requires IsRecord(rec) && 2 * |rec| <= |buf|
    ensures k <= |rs| && (k > 0 ==> 0 < Dist(w, off, |buf|) <= |rec| && |Bytes(rs[..k - 1])| < |rec|)
    ensures var fixed := FixedUp(buf, w, |rec|, off);
      && Readable(buf, fixed, w) == Bytes(rs[k..])
      && Readable(Put(buf, w, rec), fixed, Ahead(w, |rec|, |buf|)) == Bytes(rs[k..] + [rec])
      && !IsBetween(w, Ahead(w, |rec|, |buf|), fixed)
  {
    k := FixUpMoves(buf, w, off, rs, |rec|);
    var fixed := FixedUp(buf, w, |rec|, off);
    BetweenIsAround(w, Ahead(w, |rec|, |buf|), fixed, |buf|);
    PutAppends(buf, fixed, w, rec);
    BytesOfSplit(rs[k..], [rec]);
    BytesOfOne(rec);
  }
}
