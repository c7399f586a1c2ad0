/**
 The arithmetic of Parcel.cpp and the byte sequence that its writes make.
 */
module ParcelData {

  const SIZE_MAX := 0xFFFF_FFFF_FFFF_FFFF
  /** No buffer is larger. */
  const PTRDIFF_MAX := 0x7FFF_FFFF_FFFF_FFFF

  const INT32_MAX := 0x7FFF_FFFF

  // ---------------------------------------------------------------------------
  // Sizes
  // ---------------------------------------------------------------------------

  /** pad_size: `(s + 3) & ~3` in a size_t. */
  function PadSize(s: nat): nat {
    (s + 3) % (SIZE_MAX + 1) / 4 * 4
  }

  /** The next multiple of four, for every length that write accepts. */
  lemma PadSizeRoundsUp(s: nat)
    requires s <= SIZE_MAX - 3
    ensures PadSize(s) % 4 == 0 && s <= PadSize(s) < s + 4
  {
  }

  /** What growData asks continueWrite for. */
  function Grown(size: nat, len: nat): nat {
    (size + len) * 3 / 2
  }

  /** The jump back into the write is in bounds, and the product does not overflow a size_t. */
  lemma GrowthSuffices(size: nat, pos: nat, len: nat)
    requires pos <= size && 0 < len && size + len <= SIZE_MAX / 3
    ensures size < Grown(size, len) && pos + len <= Grown(size, len) && (size + len) * 3 <= SIZE_MAX
  {
  }

  // ---------------------------------------------------------------------------
  // Padding
  // ---------------------------------------------------------------------------

  /** The little-endian table of masks, indexed by the number of padding bytes. */
  function Mask(padding: nat): bv32 {
    if padding == 1 then 0x00FF_FFFF else if padding == 2 then 0x0000_FFFF else if padding == 3 then 0x0000_00FF else 0
  }

  /** bv8 `j` of a little-endian word. */
  function ByteOf(word: bv32, j: nat): bv8
    requires j < 4
  {
    if j == 0 then (word & 0xFF) as bv8 else if j == 1 then ((word >> 8) & 0xFF) as bv8
    else if j == 2 then ((word >> 16) & 0xFF) as bv8 else ((word >> 24) & 0xFF) as bv8
  }

  /** Masking the last word keeps its data bytes and clears its padding bytes. */
  lemma MaskClearsPadding(b: bv8, padding: nat, j: nat)
    requires 1 <= padding <= 3 && j < 4
    ensures b & ByteOf(Mask(padding), j) == if j < 4 - padding then b else 0
  {
  }

  /** A 32-bit value as it lies in memory, the lowest byte first. */
  function Int32Bytes(val: bv32): (b: seq<bv8>)
    ensures |b| == 4
  {
    [ByteOf(val, 0), ByteOf(val, 1), ByteOf(val, 2), ByteOf(val, 3)]
  }

  lemma Int32Value(val: bv32)
    ensures var b := Int32Bytes(val);
            val == (b[0] as bv32) | ((b[1] as bv32) << 8) | ((b[2] as bv32) << 16) | ((b[3] as bv32) << 24)
  {
  }

  function Zeros(n: nat): (z: seq<bv8>)
    ensures |z| == n && forall i :: 0 <= i < n ==> z[i] == 0
  {
    seq(n, _ => 0)
  }

  /** The data, and no more zeros behind it than make the length a multiple of four. */
  predicate IsPadded(data: seq<bv8>, p: seq<bv8>) {
    && |p| % 4 == 0 && |data| <= |p| < |data| + 4
    && p[..|data|] == data && forall i :: |data| <= i < |p| ==> p[i] == 0
  }

  /** Data followed by zeros up to a multiple of four. */
  function Padded(data: seq<bv8>): (p: seq<bv8>)
    requires |data| <= INT32_MAX
    ensures |p| == PadSize(|data|) && IsPadded(data, p)
  {
    PadSizeRoundsUp(|data|);
    data + Zeros(PadSize(|data|) - |data|)
  }

  // ---------------------------------------------------------------------------
  // Writing at the position
  // ---------------------------------------------------------------------------

  /** `p` written over `bytes` from `pos` on, which may make it longer. */
  function Spliced(bytes: seq<bv8>, pos: nat, p: seq<bv8>): (r: seq<bv8>)
    requires pos <= |bytes|
    ensures |r| == if pos + |p| <= |bytes| then |bytes| else pos + |p|
  {
    bytes[..pos] + p + if pos + |p| <= |bytes| then bytes[pos + |p|..] else []
  }

  /** What lies between the contents and a position after them: as many bytes, of any value. */
  predicate IsGap(bytes: seq<bv8>, pos: nat, gap: seq<bv8>) {
    |gap| == if pos > |bytes| then pos - |bytes| else 0
  }

  /**
   The contents after a write of `p` in place. finishWrite refuses more than INT32_MAX
   bytes, and its callers do not look: then the size and the position stay.
   */
  function Finished(bytes: seq<bv8>, gap: seq<bv8>, pos: nat, p: seq<bv8>): (r: seq<bv8>)
    requires IsGap(bytes, pos, gap)
  {
    if |p| <= INT32_MAX then Spliced(bytes + gap, pos, p) else Spliced(bytes + gap, pos, p)[..|bytes|]
  }

  function Advanced(pos: nat, len: nat): nat {
    if len <= INT32_MAX then pos + len else pos
  }

  /** The bytes of memory `m` between its first `size` and `at`. */
  function GapIn(m: seq<bv8>, size: nat, at: nat): (gap: seq<bv8>)
    requires size <= |m| && at <= |m|
    ensures IsGap(m[..size], at, gap)
  {
    if at > size then m[size..at] else []
  }

  /** Memory `m`, holding `size` bytes, once the `len` bytes at `at` are padded and the size moves on. */
  lemma PaddedInPlace(m: seq<bv8>, size: nat, at: nat, len: nat, padded: nat, after: seq<bv8>)
    requires size <= |m| && len <= padded && at + padded <= |m| && |after| == |m|
    requires forall i :: 0 <= i < |m| ==> after[i] == if at + len <= i < at + padded then 0 else m[i]
    ensures var size' := if padded <= INT32_MAX && at + padded > size then at + padded else size;
      after[..size'] == Finished(m[..size], GapIn(m, size, at), at, after[at..at + len] + Zeros(padded - len))
  {
    var p, gap := after[at..at + len] + Zeros(padded - len), GapIn(m, size, at);
    assert p == after[at..at + padded];
    if at > size {
      assert m[..size] + gap == m[..at] == after[..at];
      assert Spliced(m[..size] + gap, at, p) == after[..at + padded];
    } else {
      assert m[..size] + gap == m[..size];
      assert Spliced(m[..size], at, p) == after[..if at + padded <= size then size else at + padded];
    }
  }

  /** How many bytes make a length a multiple of four. */
  function Short(len: nat): (n: nat)
    ensures n < 4 && (len + n) % 4 == 0
  {
    (4 - len % 4) % 4
  }

  lemma PadIsShort(len: nat)
    requires len <= INT32_MAX - 3
    ensures PadSize(len) == len + Short(len) <= INT32_MAX
  {
    PadSizeRoundsUp(len);
  }

  /**
   What a caller sees of a write: from `at` on the data, then zeros up to a multiple of
   four, and every byte of the old contents outside of that where it was.
   */
  predicate Shows(was: seq<bv8>, at: nat, data: seq<bv8>, now: seq<bv8>) {
    var end := at + |data| + Short(|data|);
    && |now| == (if |was| < end then end else |was|)
    && now[at..at + |data|] == data
    && (forall i :: at + |data| <= i < end ==> now[i] == 0)
    && forall i :: 0 <= i < |was| && (i < at || i >= end) ==> now[i] == was[i]
  }

  lemma FinishedShows(bytes: seq<bv8>, gap: seq<bv8>, at: nat, data: seq<bv8>)
    requires IsGap(bytes, at, gap) && |data| <= INT32_MAX && PadSize(|data|) <= INT32_MAX
    ensures Shows(bytes, at, data, Finished(bytes, gap, at, Padded(data)))
  {
    PadSizeRoundsUp(|data|);
    assert |data| + Short(|data|) == |Padded(data)|;
    SplicedShows(bytes, gap, at, data, Padded(data));
  }

  lemma SplicedShows(bytes: seq<bv8>, gap: seq<bv8>, at: nat, data: seq<bv8>, p: seq<bv8>)
    requires IsGap(bytes, at, gap) && IsPadded(data, p) && |p| == |data| + Short(|data|)
    ensures Shows(bytes, at, data, Spliced(bytes + gap, at, p))
  {
    var b, now := bytes + gap, Spliced(bytes + gap, at, p);
    forall i | 0 <= i < |now| ensures now[i] == if at <= i < at + |p| then p[i - at] else b[i] {
      SplicedAt(b, at, p, i);
    }
    assert now[at..at + |data|] == p[..|data|];
  }

  lemma WordInPlace(m: seq<bv8>, size: nat, at: nat, word: seq<bv8>, after: seq<bv8>)
    requires size <= |m| && at + |word| <= |m| && |word| <= INT32_MAX && after == m[..at] + word + m[at + |word|..]
    ensures after[..if at + |word| > size then at + |word| else size]
         == Finished(m[..size], GapIn(m, size, at), at, word)
  {
    assert m[..size] + GapIn(m, size, at) == m[..if at > size then at else size];
  }

  lemma SplicedAt(bytes: seq<bv8>, pos: nat, p: seq<bv8>, k: nat)
    requires pos <= |bytes| && k < |Spliced(bytes, pos, p)|
    ensures pos + |p| <= k ==> k < |bytes|
    ensures Spliced(bytes, pos, p)[k] == if pos <= k < pos + |p| then p[k - pos] else bytes[k]
  {
  }

  /** Putting the data where it goes. */
  lemma FilledIn(bytes: seq<bv8>, gap: seq<bv8>, at: nat, p: seq<bv8>, data: seq<bv8>, now: seq<bv8>)
    requires IsGap(bytes, at, gap) && |data| <= |p| && |now| == |Finished(bytes, gap, at, p)|
    requires forall i :: 0 <= i < |now| ==>
      now[i] == if at <= i < at + |data| then data[i - at] else Finished(bytes, gap, at, p)[i]
    ensures now == Finished(bytes, gap, at, data + p[|data|..])
  {
    var q := data + p[|data|..];
    forall k | 0 <= k < |now|
      ensures now[k] == Finished(bytes, gap, at, q)[k]
    {
      SplicedAt(bytes + gap, at, p, k);
      SplicedAt(bytes + gap, at, q, k);
    }
  }

  /** Everything a sequence of writes to the end puts there. */
  function AllPadded(chunks: seq<seq<bv8>>): seq<bv8>
    requires forall i :: 0 <= i < |chunks| ==> |chunks[i]| <= INT32_MAX
  {
    if chunks == [] then [] else Padded(chunks[0]) + AllPadded(chunks[1..])
  }

  lemma SpliceTwice(bytes: seq<bv8>, pos: nat, p: seq<bv8>, q: seq<bv8>)
    requires pos <= |bytes|
    ensures Spliced(Spliced(bytes, pos, p), pos + |p|, q) == Spliced(bytes, pos, p + q)
  {
  }

  // ---------------------------------------------------------------------------
  // Where a write goes
  // ---------------------------------------------------------------------------

  const NO_ERROR := 0
  const NO_MEMORY := -12
  const BAD_VALUE := -22

  function Min(a: nat, b: nat): nat {
    if a < b then a else b
  }

  /** growData gets as far as continueWrite, and that to allocating. */
  predicate Growable(size: nat, len: nat) {
    size < Grown(size, len) <= INT32_MAX
  }

  /** All of a parcel that decides where the next write goes; `buffer` is whether there is one. */
  datatype Place = Place(buffer: bool, owner: bool, size: nat, cap: nat, pos: nat) {

    predicate Valid() {
      && size <= cap <= PTRDIFF_MAX && pos <= SIZE_MAX
      && (!buffer ==> cap == 0 && !owner)
    }

    /** What the parcel contributes to the global size: the capacity of a buffer of its own. */
    function Charge(): nat {
      if buffer && !owner then cap else 0
    }

    /** The test before each write, in a size_t. */
    predicate Fits(len: nat) {
      (pos + len) % (SIZE_MAX + 1) <= cap
    }

    /** Whether continueWrite allocates. */
    predicate Allocates(desired: nat) {
      if owner then desired != 0 else !buffer || desired > cap
    }

    predicate Continues(desired: nat, mallocWorks: bool) {
      desired <= INT32_MAX && (mallocWorks || !Allocates(desired))
    }

    /** After continueWrite. */
    function Continued(desired: nat): Place {
      if owner then
        if desired == 0 then Place(false, false, 0, 0, 0) else Place(true, false, Min(size, desired), desired, pos)
      else if !buffer then Place(true, false, 0, desired, 0)
      else if desired > cap then this.(cap := desired)
      else this.(size := Min(size, desired), pos := Min(pos, desired))
    }

    /** After setDataSize. */
    function Resized(n: nat, mallocWorks: bool): Place {
      if Continues(n, mallocWorks) then Continued(n).(size := n) else this
    }

    /** What growData returns. */
    function GrowError(len: nat, mallocWorks: bool): int {
      if len > INT32_MAX then BAD_VALUE
      else if size + len > SIZE_MAX / 3 || Grown(size, len) <= size then NO_MEMORY
      else if Grown(size, len) > INT32_MAX then BAD_VALUE
      else if Continues(Grown(size, len), mallocWorks) then NO_ERROR
      else NO_MEMORY
    }

    predicate MakesRoom(len: nat, mallocWorks: bool) {
      Fits(len) || GrowError(len, mallocWorks) == NO_ERROR
    }

    /** When `len` bytes fit, or growData was asked to make them. */
    function Roomy(len: nat): Place {
      if Fits(len) then this else Continued(Grown(size, len))
    }

    /** What the write then stores lies in the buffer. */
    predicate InBounds(len: nat) {
      Roomy(len).pos + len <= Roomy(len).cap
    }

    /** After finishWrite. */
    function Finish(len: nat): Place {
      if len > INT32_MAX then this else this.(pos := pos + len, size := if pos + len > size then pos + len else size)
    }

    /** After a write of `len` bytes. */
    function Written(len: nat): Place {
      Roomy(len).Finish(len)
    }

    /** writeInplace finds a place for `len` bytes and their padding. */
    predicate Writable(len: nat, mallocWorks: bool) {
      && len <= INT32_MAX && pos + PadSize(len) <= SIZE_MAX
      && if Fits(PadSize(len)) then buffer else GrowError(PadSize(len), mallocWorks) == NO_ERROR
    }

    /** The only failure that sets the error. */
    predicate MallocFails(len: nat, mallocWorks: bool) {
      !Fits(len) && Growable(size, len) && !Continues(Grown(size, len), mallocWorks)
    }

    predicate WriteMallocFails(len: nat, mallocWorks: bool) {
      len <= INT32_MAX && pos + PadSize(len) <= SIZE_MAX && MallocFails(PadSize(len), mallocWorks)
    }

    /** What write returns; `error` is the parcel's error before it. */
    function WriteError(error: int, len: nat, mallocWorks: bool): int {
      if len > INT32_MAX then BAD_VALUE
      else if Writable(len, mallocWorks) then NO_ERROR
      else if WriteMallocFails(len, mallocWorks) then NO_MEMORY
      else error
    }

    /** The position is no further than the size. */
    predicate Placed() {
      pos <= size
    }
  }

  /** The test compares the sum, or what is left of it when it wraps. */
  lemma FitsExactly(p: Place, len: nat)
    requires p.Valid() && len <= SIZE_MAX
    ensures p.Fits(len) <==> p.pos + len <= p.cap || (p.pos + len > SIZE_MAX && p.pos + len - SIZE_MAX - 1 <= p.cap)
  {
  }

  lemma GrowErrorMeans(p: Place, len: nat, mallocWorks: bool)
    ensures p.GrowError(len, mallocWorks) == NO_ERROR
       <==> Growable(p.size, len) && p.Continues(Grown(p.size, len), mallocWorks)
  {
  }

  /** The tests of writeInplace, one after the other. */
  lemma WritableByTests(p: Place, len: nat, mallocWorks: bool)
    requires p.Valid() && len <= INT32_MAX
    ensures (p.pos + PadSize(len)) % (SIZE_MAX + 1) < p.pos <==> p.pos + PadSize(len) > SIZE_MAX
    ensures p.pos + PadSize(len) <= SIZE_MAX ==>
      (p.Writable(len, mallocWorks) <==> p.MakesRoom(PadSize(len), mallocWorks) && p.Roomy(PadSize(len)).buffer)
    ensures p.MakesRoom(PadSize(len), mallocWorks) && !p.Roomy(PadSize(len)).buffer ==> p.Roomy(PadSize(len)) == p
    ensures p.Writable(len, mallocWorks) ==> !p.WriteMallocFails(len, mallocWorks)
  {
    PadSizeRoundsUp(len);
    GrowErrorMeans(p, PadSize(len), mallocWorks);
  }

  /**
   With the position no further than the size, growData leaves room for the jump back
   into the write at the same position, and what is written moves the position along.
   */
  lemma PlacedWritesAreInBounds(p: Place, len: nat, mallocWorks: bool)
    requires p.Valid() && p.Placed() && p.MakesRoom(len, mallocWorks) && len <= PTRDIFF_MAX
    ensures p.InBounds(len) && p.Roomy(len).pos == p.pos && p.Roomy(len).size == p.size
    ensures p.Written(len).Valid() && p.Written(len).Placed() && p.Written(len).pos == Advanced(p.pos, len)
  {
    GrowErrorMeans(p, len, mallocWorks);
    if !p.Fits(len) {
      GrowthSuffices(p.size, p.pos, len);
    }
  }

  /** So the position may be anywhere in the contents, or at their end, and then stays so. */
  lemma PlacedAllows(p: Place, len: nat, mallocWorks: bool)
    requires p.Valid() && p.Placed()
    ensures p.Writable(len, mallocWorks) ==> p.InBounds(PadSize(len))
    ensures p.Writable(len, mallocWorks) ==> p.Written(PadSize(len)).Placed()
    ensures p.MakesRoom(4, mallocWorks) ==> p.InBounds(4) && p.Written(4).Placed()
  {
    if p.Writable(len, mallocWorks) {
      PadSizeRoundsUp(len);
      PlacedWritesAreInBounds(p, PadSize(len), mallocWorks);
    }
    if p.MakesRoom(4, mallocWorks) {
      PlacedWritesAreInBounds(p, 4, mallocWorks);
    }
  }

  /**
   Further on it does so exactly up to half of what the contents and the write take, if the
   parcel has to allocate. If it has a buffer of its own that growData finds large enough,
   the position is pulled back to that size, and the write has to fit there. A parcel
   without a buffer is always written at 0.
   */
  lemma InBoundsExactly(p: Place, len: nat, mallocWorks: bool)
    requires p.Valid() && !p.Fits(len) && p.GrowError(len, mallocWorks) == NO_ERROR && p.pos + len <= SIZE_MAX
    ensures p.InBounds(len) <==>
      if !p.buffer then true
      else if p.Allocates(Grown(p.size, len)) then p.pos <= p.size + (p.size + len) / 2
      else p.pos > Grown(p.size, len) && Grown(p.size, len) + len <= p.cap
  {
    GrowErrorMeans(p, len, mallocWorks);
  }

  /** After a writeInt32 to a new parcel, one at position 100 stores at 100 in a buffer of 12 bytes. */
  lemma OutOfBoundsHappens()
    ensures var p := Place(false, false, 0, 0, 0).Written(4).(pos := 100);
            p.Valid() && p.MakesRoom(4, true) && p.Roomy(4).pos == 100 && p.Roomy(4).cap == 12 && !p.InBounds(4)
  {
    var empty := Place(false, false, 0, 0, 0);
    assert empty.Written(4) == Place(true, false, 4, 6, 4);
    InBoundsExactly(Place(true, false, 4, 6, 100), 4, true);
  }

  /**
   write reports success without having written exactly when the parcel has no error
   from before and growing by half again would pass INT32_MAX, or the sum of position and
   length wraps: neither error is passed on.
   */
  lemma SilentFailure(p: Place, error: int, len: nat, mallocWorks: bool)
    requires 0 < len <= INT32_MAX && p.Valid()
    ensures !p.Writable(len, mallocWorks) && p.WriteError(error, len, mallocWorks) == NO_ERROR
       <==> error == NO_ERROR
            && (p.pos + PadSize(len) > SIZE_MAX
                || (p.pos + PadSize(len) > p.cap && Grown(p.size, PadSize(len)) > INT32_MAX))
  {
    PadSizeRoundsUp(len);
    GrowErrorMeans(p, PadSize(len), mallocWorks);
  }

  /**
   Any other write of up to INT32_MAX - 3 bytes succeeds: if it fits where it is, or if half
   again of contents and write is at most INT32_MAX and there is memory for it, or already.
   */
  lemma WritableExactly(p: Place, len: nat, mallocWorks: bool)
    requires p.Valid() && 0 < len <= INT32_MAX - 3
    ensures var n := len + Short(len);
      var grown := (p.size + n) * 3 / 2;
      p.Writable(len, mallocWorks) <==>
        && p.pos + n <= SIZE_MAX
        && (p.pos + n <= p.cap
            || (grown <= INT32_MAX && (mallocWorks || (p.buffer && !p.owner && grown <= p.cap))))
  {
    PadIsShort(len);
    GrowErrorMeans(p, PadSize(len), mallocWorks);
  }

  /** What growData returns for contents of a size that a parcel can make itself. */
  lemma GrowErrorIs(p: Place, len: nat, mallocWorks: bool)
    requires p.Valid() && p.size <= INT32_MAX && 0 < len
    ensures p.GrowError(len, mallocWorks) ==
      if (p.size + len) * 3 / 2 > INT32_MAX then BAD_VALUE
      else if mallocWorks || (p.buffer && !p.owner && (p.size + len) * 3 / 2 <= p.cap) then NO_ERROR
      else NO_MEMORY
  {
  }

  /** Writing 1500000000 bytes to a new parcel writes nothing and reports success. */
  lemma SilentFailureHappens(mallocWorks: bool)
    ensures var p := Place(false, false, 0, 0, 0);
            !p.Writable(1_500_000_000, mallocWorks) && p.WriteError(NO_ERROR, 1_500_000_000, mallocWorks) == NO_ERROR
  {
    SilentFailure(Place(false, false, 0, 0, 0), NO_ERROR, 1_500_000_000, mallocWorks);
  }

  /** A parcel's place and contents. */
  datatype Filled = Filled(place: Place, bytes: seq<bv8>) {
    predicate Valid() {
      place.Valid() && place.Placed() && |bytes| == place.size
    }
  }

  /** The data, with zeros up to a multiple of four, lies before the new position; the rest of the contents stays. */
  predicate Wrote(was: Filled, data: seq<bv8>, now: Filled) {
    var len := |data| + Short(|data|);
    && len <= now.place.pos && Shows(was.bytes, now.place.pos - len, data, now.bytes)
    && (was.place.pos <= |was.bytes| ==> now.place.pos == was.place.pos + len)
  }

  /** Where a write goes, and where it leaves the position. */
  lemma GoesTo(p: Place, len: nat, mallocWorks: bool) returns (at: nat)
    requires p.Valid() && p.Writable(len, mallocWorks) && len <= INT32_MAX - 3
    ensures at == p.Roomy(PadSize(len)).pos && p.Written(PadSize(len)).pos == at + len + Short(len)
    ensures p.pos <= p.size ==> at == p.pos
    ensures PadSize(len) <= INT32_MAX
  {
    PadIsShort(len);
    at := FinishesAt(p, PadSize(len), mallocWorks);
  }

  lemma FinishesAt(p: Place, padded: nat, mallocWorks: bool) returns (at: nat)
    requires p.Valid() && p.MakesRoom(padded, mallocWorks) && padded <= INT32_MAX
    ensures at == p.Roomy(padded).pos && p.Written(padded).pos == at + padded
    ensures p.pos <= p.size ==> at == p.pos
  {
    at := p.Roomy(padded).pos;
    if p.pos <= p.size {
      PlacedWritesAreInBounds(p, padded, mallocWorks);
    }
  }

  lemma WriteEnds(was: Filled, data: seq<bv8>, mallocWorks: bool, gap: seq<bv8>, now: Filled)
    requires was.place.Valid() && |was.bytes| == was.place.size && was.place.Writable(|data|, mallocWorks)
    requires now.place == was.place.Written(PadSize(|data|))
    requires IsGap(was.bytes, was.place.Roomy(PadSize(|data|)).pos, gap)
    requires now.bytes == Finished(was.bytes, gap, was.place.Roomy(PadSize(|data|)).pos, Padded(data))
    ensures |data| <= INT32_MAX - 3 ==> Wrote(was, data, now)
    ensures was.place.Placed() ==> now.place.Placed()
  {
    WrittenIsWrote(was, data, mallocWorks, gap, now);
    if was.place.Placed() {
      PlacedAllows(was.place, |data|, mallocWorks);
    }
  }

  lemma WrittenIsWrote(was: Filled, data: seq<bv8>, mallocWorks: bool, gap: seq<bv8>, now: Filled)
    requires was.place.Valid() && |was.bytes| == was.place.size && was.place.Writable(|data|, mallocWorks)
    requires now.place == was.place.Written(PadSize(|data|))
    requires IsGap(was.bytes, was.place.Roomy(PadSize(|data|)).pos, gap)
    requires now.bytes == Finished(was.bytes, gap, was.place.Roomy(PadSize(|data|)).pos, Padded(data))
    ensures |data| <= INT32_MAX - 3 ==> Wrote(was, data, now)
  {
    if |data| <= INT32_MAX - 3 {
      var at := GoesTo(was.place, |data|, mallocWorks);
      FinishedShows(was.bytes, gap, at, data);
      ShowsWrote(was, data, at, now);
    }
  }

  lemma ShowsWrote(was: Filled, data: seq<bv8>, at: nat, now: Filled)
    requires Shows(was.bytes, at, data, now.bytes) && now.place.pos == at + |data| + Short(|data|)
    requires was.place.pos <= |was.bytes| ==> at == was.place.pos
    ensures Wrote(was, data, now)
  {
    assert now.place.pos - (|data| + Short(|data|)) == at;
  }

  /** The same of a word, which needs no padding. */
  lemma WordIsWrote(was: Filled, word: seq<bv8>, mallocWorks: bool, gap: seq<bv8>, now: Filled)
    requires was.place.Valid() && |was.bytes| == was.place.size && was.place.MakesRoom(4, mallocWorks) && |word| == 4
    requires was.place.InBounds(4) && now.place == was.place.Written(4)
    requires IsGap(was.bytes, was.place.Roomy(4).pos, gap)
    requires now.bytes == Finished(was.bytes, gap, was.place.Roomy(4).pos, word)
    ensures Wrote(was, word, now)
    ensures was.place.Placed() ==> now.place.Placed()
  {
    if was.place.Placed() {
      PlacedAllows(was.place, 4, mallocWorks);
    }
    var at := FinishesAt(was.place, 4, mallocWorks);
    assert Padded(word) == word;
    FinishedShows(was.bytes, gap, at, word);
    ShowsWrote(was, word, at, now);
  }

  /** One write, with the position no further than the size. */
  function WriteOne(f: Filled, data: seq<bv8>, mallocWorks: bool): (r: Filled)
    requires f.Valid()
    ensures r.Valid()
  {
    if f.place.Writable(|data|, mallocWorks) then
      PlacedWritesAreInBounds(f.place, PadSize(|data|), mallocWorks);
      Filled(f.place.Written(PadSize(|data|)), Finished(f.bytes, [], f.place.pos, Padded(data)))
    else f
  }

  /** One write after the other; some may fail. */
  function WriteEach(f: Filled, chunks: seq<seq<bv8>>, works: seq<bool>): (r: Filled)
    requires f.Valid() && |works| == |chunks|
    ensures r.Valid()
    decreases |chunks|
  {
    if chunks == [] then f else WriteEach(WriteOne(f, chunks[0], works[0]), chunks[1..], works[1..])
  }

  /** The chunks whose write did not fail. */
  function Taken(f: Filled, chunks: seq<seq<bv8>>, works: seq<bool>): (r: seq<seq<bv8>>)
    requires f.Valid() && |works| == |chunks|
    ensures |r| <= |chunks| && forall i :: 0 <= i < |r| ==> |r[i]| <= INT32_MAX
    decreases |chunks|
  {
    if chunks == [] then []
    else
      (if f.place.Writable(|chunks[0]|, works[0]) then [chunks[0]] else [])
      + Taken(WriteOne(f, chunks[0], works[0]), chunks[1..], works[1..])
  }

  /** finishWrite takes every one of them with its padding. */
  predicate AllFinish(chunks: seq<seq<bv8>>) {
    forall i :: 0 <= i < |chunks| ==> PadSize(|chunks[i]|) <= INT32_MAX
  }

  lemma AllPaddedOfTwo(c: seq<bv8>, cs: seq<seq<bv8>>)
    requires |c| <= INT32_MAX && forall i :: 0 <= i < |cs| ==> |cs[i]| <= INT32_MAX
    ensures AllPadded([c] + cs) == Padded(c) + AllPadded(cs)
    ensures AllFinish([c] + cs) <==> PadSize(|c|) <= INT32_MAX && AllFinish(cs)
  {
    assert ([c] + cs)[1..] == cs;
    assert AllFinish([c] + cs) ==> AllFinish(cs) by {
      assert forall i :: 0 <= i < |cs| ==> cs[i] == ([c] + cs)[i + 1];
    }
    assert AllFinish([c] + cs) ==> ([c] + cs)[0] == c;
  }

  /** A write that does not fail is one splice of its padded data, to which the next one adds. */
  lemma WriteOneSplices(f: Filled, data: seq<bv8>, mallocWorks: bool, next: seq<bv8>)
    requires f.Valid() && f.place.Writable(|data|, mallocWorks)
    ensures WriteOne(f, data, mallocWorks).place.pos == Advanced(f.place.pos, |Padded(data)|)
    ensures var r := WriteOne(f, data, mallocWorks);
            |Padded(data)| <= INT32_MAX ==>
              Spliced(r.bytes, r.place.pos, next) == Spliced(f.bytes, f.place.pos, Padded(data) + next)
  {
    PlacedWritesAreInBounds(f.place, PadSize(|data|), mallocWorks);
    assert f.bytes + [] == f.bytes;
    SpliceTwice(f.bytes, f.place.pos, Padded(data), next);
  }

  /**
   After any number of writes the position is past all the padded data of those that did
   not fail, exactly if no data is so long that its padding takes it past INT32_MAX.
   */
  lemma {:induction false} WritesAdvance(f: Filled, chunks: seq<seq<bv8>>, works: seq<bool>)
    requires f.Valid() && |works| == |chunks|
    ensures var end := f.place.pos + |AllPadded(Taken(f, chunks, works))|;
            WriteEach(f, chunks, works).place.pos <= end
            && (WriteEach(f, chunks, works).place.pos == end <==> AllFinish(Taken(f, chunks, works)))
    decreases |chunks|
  {
    if chunks != [] {
      var next := WriteOne(f, chunks[0], works[0]);
      var rest := Taken(next, chunks[1..], works[1..]);
      WritesAdvance(next, chunks[1..], works[1..]);
      if f.place.Writable(|chunks[0]|, works[0]) {
        WriteOneSplices(f, chunks[0], works[0], []);
        AllPaddedOfTwo(chunks[0], rest);
      } else {
        assert [] + rest == rest;
      }
    }
  }

  /** Any number of writes is then one splice, at the first position, of that padded data. */
  lemma {:induction false} WritesAreOneSplice(f: Filled, chunks: seq<seq<bv8>>, works: seq<bool>)
    requires f.Valid() && |works| == |chunks| && AllFinish(Taken(f, chunks, works))
    ensures WriteEach(f, chunks, works).bytes
         == Spliced(f.bytes, f.place.pos, AllPadded(Taken(f, chunks, works)))
    decreases |chunks|
  {
    if chunks == [] {
      assert f.bytes[..f.place.pos] + [] + f.bytes[f.place.pos..] == f.bytes;
    } else {
      var next := WriteOne(f, chunks[0], works[0]);
      var rest := Taken(next, chunks[1..], works[1..]);
      if f.place.Writable(|chunks[0]|, works[0]) {
        AllPaddedOfTwo(chunks[0], rest);
        WritesAreOneSplice(next, chunks[1..], works[1..]);
        WriteOneSplices(f, chunks[0], works[0], AllPadded(rest));
      } else {
        assert [] + rest == rest;
        WritesAreOneSplice(next, chunks[1..], works[1..]);
      }
    }
  }
}
