/**
 The loops of Unicode.cpp: each measuring loop returns the length of what the
 matching filling loop writes, and each filling loop writes the conversion that
 module UnicodeStrings defines. Pointers are a sequence to read, or an array to
 write, with an index; a null source is the empty sequence.
 */
module UnicodeConverters {
  import opened Unicode
  import opened UnicodeStrings

  const SSIZE_MAX := 0x7FFF_FFFF_FFFF_FFFF

  lemma BytesFrom(c: bv32, s1: bv32, s2: bv32, s3: bv32, e: seq<bv8>)
    requires s1 == c >> 6 && s2 == s1 >> 6 && s3 == s2 >> 6 && |e| == Utf8Length(c)
    requires |e| == 1 ==> e[0] == LeadByte(c, 1)
    requires |e| == 2 ==> e[0] == LeadByte(s1, 2) && e[1] == TrailByte(c)
    requires |e| == 3 ==> e[0] == LeadByte(s2, 3) && e[1] == TrailByte(s1) && e[2] == TrailByte(c)
    requires |e| == 4 ==>
      e[0] == LeadByte(s3, 4) && e[1] == TrailByte(s2) && e[2] == TrailByte(s1) && e[3] == TrailByte(c)
    ensures e == Encoded(c)
  {
    ShiftsCompose(c);
  }

  /** The `n` bytes still to be written, from the lead byte to the one the next case writes. */
  function FallThrough(srcChar: bv32, n: nat, bytes: nat): (e: seq<bv8>)
    ensures |e| == n
  {
    if n == 0 then [] else if n == 1 then [LeadByte(srcChar, bytes)]
    else FallThrough(srcChar >> 6, n - 1, bytes) + [TrailByte(srcChar)]
  }

  lemma LastTwo(c: bv32, s1: bv32, bytes: nat)
    requires s1 == c >> 6
    ensures FallThrough(c, 2, bytes) == [LeadByte(s1, bytes), TrailByte(c)]
  {
    assert FallThrough(s1, 1, bytes) == [LeadByte(s1, bytes)];
  }

  lemma LastThree(c: bv32, s1: bv32, s2: bv32, bytes: nat)
    requires s1 == c >> 6 && s2 == s1 >> 6
    ensures FallThrough(c, 3, bytes) == [LeadByte(s2, bytes), TrailByte(s1), TrailByte(c)]
  {
    LastTwo(s1, s2, bytes);
  }

  lemma LastFour(c: bv32, s1: bv32, s2: bv32, s3: bv32, bytes: nat)
    requires s1 == c >> 6 && s2 == s1 >> 6 && s3 == s2 >> 6
    ensures FallThrough(c, 4, bytes) == [LeadByte(s3, bytes), TrailByte(s2), TrailByte(s1), TrailByte(c)]
  {
    LastThree(s1, s2, s3, bytes);
  }

  lemma ShiftBy6(c: bv32) returns (s: bv32)
    ensures s == c >> 6
  {
    s := c >> 6;
  }

  lemma FallThroughEncodes(c: bv32)
    ensures FallThrough(c, Utf8Length(c), Utf8Length(c)) == Encoded(c)
  {
    var s1 := ShiftBy6(c);
    var s2 := ShiftBy6(s1);
    var s3 := ShiftBy6(s2);
    var n := Utf8Length(c);
    LastTwo(c, s1, 2);
    LastThree(c, s1, s2, 3);
    LastFour(c, s1, s2, s3, 4);
    BytesFrom(c, s1, s2, s3, FallThrough(c, n, n));
  }

  /** What the buffer holds when the cases before byte `p` of the `bytes` at `at` are still to be done. */
  ghost predicate Written(now: seq<bv8>, was: seq<bv8>, at: nat, p: nat, srcChar: bv32, all: seq<bv8>)
  {
    |now| == |was| && at <= p <= at + |all| <= |was|
    && now[..p] == was[..p] && now[at + |all|..] == was[at + |all|..]
    && all == FallThrough(srcChar, p - at, |all|) + now[p..at + |all|]
  }

  lemma WroteTrail(now: seq<bv8>, was: seq<bv8>, at: nat, p: nat, srcChar: bv32, all: seq<bv8>)
    requires at + 1 < p && Written(now, was, at, p, srcChar, all)
    ensures Written(now[p - 1 := TrailByte(srcChar)], was, at, p - 1, srcChar >> 6, all)
  {
    var after := now[p - 1 := TrailByte(srcChar)];
    assert after[p - 1..at + |all|] == [TrailByte(srcChar)] + now[p..at + |all|];
  }

  lemma WroteLead(now: seq<bv8>, was: seq<bv8>, at: nat, srcChar: bv32, all: seq<bv8>)
    requires Written(now, was, at, at + 1, srcChar, all)
    ensures now[at := LeadByte(srcChar, |all|)] == was[..at] + all + was[at + |all|..]
  {
    var after := now[at := LeadByte(srcChar, |all|)];
    assert after == after[..at] + after[at..at + |all|] + after[at + |all|..];
  }

  /** A case of the switch other than the last. */
  method PutTrail(dst: array<bv8>, at: nat, p: nat, srcChar: bv32, ghost was: seq<bv8>, ghost all: seq<bv8>)
    returns (before: nat, shifted: bv32)
    requires at + 1 < p && Written(dst[..], was, at, p, srcChar, all)
    modifies dst
    ensures before == p - 1 && Written(dst[..], was, at, before, shifted, all)
  {
    WroteTrail(dst[..], was, at, p, srcChar, all);
    dst[p - 1] := ((srcChar | 0x80) & 0xBF) as bv8;
    before, shifted := p - 1, srcChar >> 6;
  }

  /** The last case. */
  method PutLead(dst: array<bv8>, at: nat, srcChar: bv32, bytes: nat, ghost was: seq<bv8>, ghost all: seq<bv8>)
    requires bytes == |all| && Written(dst[..], was, at, at + 1, srcChar, all)
    modifies dst
    ensures dst[..] == was[..at] + all + was[at + |all|..]
  {
    WroteLead(dst[..], was, at, srcChar, all);
    dst[at] := ((srcChar | FirstByteMark(bytes)) & 0xFF) as bv8;
  }

  /** utf32_codepoint_to_utf8: the cases fall through, writing backwards from the last byte. */
  method Utf32CodepointToUtf8(dst: array<bv8>, at: nat, codePoint: bv32, bytes: nat)
    requires bytes == Utf8Length(codePoint) && at + bytes <= dst.Length
    modifies dst
    ensures dst[..at + bytes] == old(dst[..at]) + Encoded(codePoint)
    ensures forall i :: at + bytes <= i < dst.Length ==> dst[i] == old(dst[i])
  {
    var srcChar, p := codePoint, at + bytes;
    ghost var was, all := dst[..], Encoded(codePoint);
    FallThroughEncodes(codePoint);
    assert dst[p..at + bytes] == [];
    if bytes == 4 {
      p, srcChar := PutTrail(dst, at, p, srcChar, was, all);
    }
    if bytes == 4 || bytes == 3 {
      p, srcChar := PutTrail(dst, at, p, srcChar, was, all);
    }
    if bytes == 4 || bytes == 3 || bytes == 2 {
      p, srcChar := PutTrail(dst, at, p, srcChar, was, all);
    }
    if bytes == 4 || bytes == 3 || bytes == 2 || bytes == 1 {
      PutLead(dst, at, srcChar, bytes, was, all);
    }
    assert dst[..at + bytes] == was[..at] + all;
  }

  method DecodePair(h: bv16, l: bv16) returns (utf32: bv32)
    ensures utf32 == PairScalar(h, l)
  {
    utf32 := (h as bv32 - 0xD800) << 10;
    utf32 := utf32 | (l as bv32 - 0xDC00);
    utf32 := utf32 + 0x1_0000;
  }

  lemma PairAt(src: seq<bv16>, cur: nat, c: bv32)
    requires cur + 1 < |src| && IsHigh(src[cur]) && IsLow(src[cur + 1]) && c == PairScalar(src[cur], src[cur + 1])
    ensures Codepoints16(src[cur..]) == [c] + Codepoints16(src[cur + 2..])
  {
    assert src[cur..][2..] == src[cur + 2..];
  }

  lemma SingleAt(src: seq<bv16>, cur: nat, c: bv32)
    requires cur < |src| && !StartsWithPair(src[cur..]) && c == src[cur] as bv32
    ensures Codepoints16(src[cur..]) == [c] + Codepoints16(src[cur + 1..])
  {
    assert src[cur..][1..] == src[cur + 1..];
    FirstUnit(src[cur..], c);
  }

  /** The test of both loops for a surrogate pair at `cur`. */
  method TestPair(src: seq<bv16>, cur: nat) returns (pair: bool)
    requires cur < |src|
    ensures pair <==> StartsWithPair(src[cur..])
  {
    SurrogateMasks(src[cur]);
    if cur + 1 < |src| {
      SurrogateMasks(src[cur + 1]);
    }
    pair := src[cur] & 0xFC00 == 0xD800 && cur + 1 < |src| && src[cur + 1] & 0xFC00 == 0xDC00;
  }

  /** The next code point of a UTF-16 loop, and how many units it takes. */
  method NextUtf16(src: seq<bv16>, cur: nat) returns (utf32: bv32, units: nat)
    requires cur < |src|
    ensures cur + units <= |src| && units == if StartsWithPair(src[cur..]) then 2 else 1
    ensures Codepoints16(src[cur..]) == [utf32] + Codepoints16(src[cur + units..])
    ensures units == 2 ==> Utf8Length(utf32) == 4
  {
    var pair := TestPair(src, cur);
    if pair {
      utf32 := DecodePair(src[cur], src[cur + 1]);
      units := 2;
      PairAt(src, cur, utf32);
      PairTakesFour(src[cur], src[cur + 1], utf32);
    } else {
      utf32 := src[cur] as bv32;
      units := 1;
      SingleAt(src, cur, utf32);
    }
  }

  lemma PairTakesFour(h: bv16, l: bv16, c: bv32)
    requires IsHigh(h) && IsLow(l) && c == PairScalar(h, l)
    ensures Utf8Length(c) == 4
  {
    var same := PairHalves(h, l);
  }

  lemma Utf8OfCons(c: bv32, cs: seq<bv32>)
    ensures Utf8Of([c] + cs) == Encoded(c) + Utf8Of(cs)
  {
    assert ([c] + cs)[1..] == cs;
  }

  /** utf16_to_utf8_length. */
  method Utf16ToUtf8Length(src: seq<bv16>) returns (r: int)
    ensures r == if src == [] || |Utf16ToUtf8(src)| > SSIZE_MAX then -1 else |Utf16ToUtf8(src)|
  {
    if |src| == 0 {
      return -1;
    }
    var ret := 0;
    var cur := 0;
    assert src[0..] == src;
    while cur < |src|
      invariant cur <= |src| && ret <= SSIZE_MAX
      invariant |Utf16ToUtf8(src)| == ret + |Utf16ToUtf8(src[cur..])|
    {
      var utf32, units := NextUtf16(src, cur);
      Utf8OfCons(utf32, Codepoints16(src[cur + units..]));
      var charLen;
      if units == 2 {
        charLen := 4;
      } else {
        charLen := Utf8Length(utf32);
      }
      cur := cur + units;
      if SSIZE_MAX - charLen < ret {
        return -1;
      }
      ret := ret + charLen;
    }
    r := ret;
  }

  lemma NextOfWhole(whole: seq<bv8>, done: seq<bv8>, c: bv32, cs: seq<bv32>)
    requires whole == done + Utf8Of([c] + cs)
    ensures whole == (done + Encoded(c)) + Utf8Of(cs)
  {
    Utf8OfCons(c, cs);
  }

  /** One code point of a filling loop; `cs` are those after it, and `whole` is all that the loop writes. */
  method FillNext(dst: array<bv8>, cur: nat, codePoint: bv32, ghost whole: seq<bv8>, ghost cs: seq<bv32>)
    returns (next: nat)
    requires cur <= |whole| < dst.Length && whole == dst[..cur] + Utf8Of([codePoint] + cs)
    modifies dst
    ensures cur <= next <= |whole| && whole == dst[..next] + Utf8Of(cs)
    ensures forall i :: next <= i < dst.Length ==> dst[i] == old(dst[i])
  {
    var len := Utf8Length(codePoint);
    NextOfWhole(whole, dst[..cur], codePoint, cs);
    Utf32CodepointToUtf8(dst, cur, codePoint, len);
    next := cur + len;
  }

  /** utf16_to_utf8, into a buffer with room for the conversion and its terminator. */
  method Utf16ToUtf8Fill(src: seq<bv16>, dst: array<bv8>)
    requires src == [] || |Utf16ToUtf8(src)| < dst.Length
    modifies dst
    ensures src == [] ==> dst[..] == old(dst[..])
    ensures src != [] ==> dst[..|Utf16ToUtf8(src)|] == Utf16ToUtf8(src) && dst[|Utf16ToUtf8(src)|] == 0
    ensures forall i :: |Utf16ToUtf8(src)| < i < dst.Length ==> dst[i] == old(dst[i])
  {
    if |src| == 0 {
      return;
    }
    ghost var whole := Utf16ToUtf8(src);
    var curUtf16: nat, cur: nat := 0, 0;
    assert src[0..] == src;
    while curUtf16 < |src|
      invariant curUtf16 <= |src| && cur <= |whole|
      invariant whole == dst[..cur] + Utf16ToUtf8(src[curUtf16..])
      invariant forall i :: cur <= i < dst.Length ==> dst[i] == old(dst[i])
    {
      var utf32, units := NextUtf16(src, curUtf16);
      cur := FillNext(dst, cur, utf32, whole, Codepoints16(src[curUtf16 + units..]));
      curUtf16 := curUtf16 + units;
    }
    dst[cur] := 0;
    assert dst[..cur] == whole;
  }

  /** utf32_to_utf8_length. */
  method Utf32ToUtf8Length(src: seq<bv32>) returns (r: int)
    ensures r == if src == [] || |Utf8Of(src)| > SSIZE_MAX then -1 else |Utf8Of(src)|
  {
    if |src| == 0 {
      return -1;
    }
    var ret := 0;
    var cur := 0;
    assert src[0..] == src;
    while cur < |src|
      invariant cur <= |src| && ret <= SSIZE_MAX
      invariant |Utf8Of(src)| == ret + |Utf8Of(src[cur..])|
    {
      var charLen := Utf8Length(src[cur]);
      assert src[cur..][1..] == src[cur + 1..];
      cur := cur + 1;
      if SSIZE_MAX - charLen < ret {
        return -1;
      }
      ret := ret + charLen;
    }
    r := ret;
  }

  /** utf32_to_utf8. */
  method Utf32ToUtf8Fill(src: seq<bv32>, dst: array<bv8>)
    requires src == [] || |Utf8Of(src)| < dst.Length
    modifies dst
    ensures src == [] ==> dst[..] == old(dst[..])
    ensures src != [] ==> dst[..|Utf8Of(src)|] == Utf8Of(src) && dst[|Utf8Of(src)|] == 0
    ensures forall i :: |Utf8Of(src)| < i < dst.Length ==> dst[i] == old(dst[i])
  {
    if |src| == 0 {
      return;
    }
    ghost var whole := Utf8Of(src);
    var curUtf32: nat, cur: nat := 0, 0;
    assert src[0..] == src;
    while curUtf32 < |src|
      invariant curUtf32 <= |src| && cur <= |whole|
      invariant whole == dst[..cur] + Utf8Of(src[curUtf32..])
      invariant forall i :: cur <= i < dst.Length ==> dst[i] == old(dst[i])
    {
      var utf32 := src[curUtf32];
      assert src[curUtf32..] == [utf32] + src[curUtf32 + 1..];
      cur := FillNext(dst, cur, utf32, whole, src[curUtf32 + 1..]);
      curUtf32 := curUtf32 + 1;
    }
    dst[cur] := 0;
    assert dst[..cur] == whole;
  }

  // ---------------------------------------------------------------------------
  // From UTF-8
  // ---------------------------------------------------------------------------

  lemma Codepoints8At(b: seq<bv8>, cur: nat) returns (c: bv32)
    requires cur < |b| && Tiles(b[cur..])
    ensures cur + LeadLen(b[cur]) <= |b| && Tiles(b[cur + LeadLen(b[cur])..])
    ensures Codepoints8(b[cur..]) == [c] + Codepoints8(b[cur + LeadLen(b[cur])..])
    ensures c == Codepoint(b[cur..], LeadLen(b[cur]))
  {
    var n := LeadLen(b[cur]);
    assert b[cur..][n..] == b[cur + n..];
    c := Codepoint(b[cur..], n);
  }

  lemma TilesAt(b: seq<bv8>, cur: nat)
    requires cur < |b|
    ensures var n := LeadLen(b[cur]); Tiles(b[cur..]) <==> cur + n <= |b| && Tiles(b[cur + n..])
  {
    var n := LeadLen(b[cur]);
    if cur + n <= |b| {
      assert b[cur..][n..] == b[cur + n..];
    }
  }

  lemma Utf16OfCons(c: bv32, cs: seq<bv32>)
    ensures Utf16Of([c] + cs) == Units(c) + Utf16Of(cs)
  {
    assert ([c] + cs)[1..] == cs;
  }

  /** Whether the next code point will be a surrogate pair; reads `beyond` only if the sequence overruns. */
  method MeasureNext(u8: seq<bv8>, cur: nat, len: nat, beyond: seq<bv8>) returns (wide: bool)
    requires cur < |u8| && len == LeadLen(u8[cur]) && |beyond| >= 3
    ensures Tiles(u8[cur..]) ==> cur + len <= |u8| && Tiles(u8[cur + len..])
    ensures Tiles(u8[cur..]) ==> |Utf8ToUtf16(u8[cur..])| == (if wide then 2 else 1) + |Utf8ToUtf16(u8[cur + len..])|
  {
    var codepoint;
    if cur + len > |u8| {
      codepoint := Codepoint((u8 + beyond)[cur..], len);
    } else {
      codepoint := Codepoint(u8[cur..], len);
      if Tiles(u8[cur..]) {
        ghost var same := Codepoints8At(u8, cur);
        Utf16OfCons(same, Codepoints8(u8[cur + len..]));
      }
    }
    wide := codepoint > 0xFFFF;
  }

  /**
   utf8_to_utf16_length. `beyond` is what lies in memory after the string: it is
   read only when the last sequence overruns and `overreadIsFatal` is set, and the
   answer does not depend on it.
   */
  method Utf8ToUtf16Length(u8: seq<bv8>, overreadIsFatal: bool, beyond: seq<bv8>) returns (r: int)
    requires |beyond| >= 3
    ensures r == if Tiles(u8) then |Utf8ToUtf16(u8)| else -1
  {
    var measured: nat, cur: nat := 0, 0;
    assert u8[0..] == u8;
    while cur < |u8|
      invariant cur <= |u8| ==> (Tiles(u8) <==> Tiles(u8[cur..]))
      invariant cur <= |u8| && Tiles(u8) ==> |Utf8ToUtf16(u8)| == measured + |Utf8ToUtf16(u8[cur..])|
      invariant cur > |u8| ==> !Tiles(u8)
    {
      measured := measured + 1;
      CodepointLenIsLeadLen(u8[cur]);
      TilesAt(u8, cur);
      var len := CodepointLen(u8[cur]);
      if cur + len - 1 >= |u8| {
        if !overreadIsFatal {
          return -1;
        }
      }
      var wide := MeasureNext(u8, cur, len, beyond);
      if wide {
        measured := measured + 1;
      }
      cur := cur + len;
    }
    if cur != |u8| {
      return -1;
    }
    r := measured;
  }

  /** `out` is the UTF-16 of the longest prefix of `cs` that fits in `room` units. */
  ghost predicate LongestFit(cs: seq<bv32>, room: nat, out: seq<bv16>) {
    exists k :: 0 <= k <= |cs| && IsLongestFit(cs, room, k) && out == Utf16Of(cs[..k])
  }

  ghost predicate IsLongestFit(cs: seq<bv32>, room: nat, k: nat)
    requires k <= |cs|
  {
    |Utf16Of(cs[..k])| <= room && forall j :: k < j <= |cs| ==> |Utf16Of(cs[..j])| > room
  }

  lemma {:induction false} Utf16OfSplit(xs: seq<bv32>, ys: seq<bv32>)
    ensures Utf16Of(xs + ys) == Utf16Of(xs) + Utf16Of(ys)
  {
    if xs == [] {
      assert xs + ys == ys;
    } else {
      assert (xs + ys)[1..] == xs[1..] + ys;
      Utf16OfSplit(xs[1..], ys);
    }
  }

  lemma PrefixLength(cs: seq<bv32>, k: nat, j: nat)
    requires k <= j <= |cs|
    ensures |Utf16Of(cs[..j])| >= |Utf16Of(cs[..k])|
  {
    assert cs[..j] == cs[..k] + cs[k..j];
    Utf16OfSplit(cs[..k], cs[k..j]);
  }

  lemma FitEnds(cs: seq<bv32>, room: nat, k: nat)
    requires k <= |cs| && |Utf16Of(cs[..k])| <= room
    requires k < |cs| ==> |Utf16Of(cs[..k + 1])| > room
    ensures LongestFit(cs, room, Utf16Of(cs[..k]))
  {
    forall j | k < j <= |cs| ensures |Utf16Of(cs[..j])| > room {
      PrefixLength(cs, k + 1, j);
    }
    assert IsLongestFit(cs, room, k);
  }

  /** At least one unit is written for each code point. */
  lemma FullEnds(cs: seq<bv32>, room: nat, k: nat)
    requires k <= |cs| && |Utf16Of(cs[..k])| <= room
    requires k == |cs| || |Utf16Of(cs[..k])| == room
    ensures LongestFit(cs, room, Utf16Of(cs[..k]))
  {
    if k < |cs| {
      TakeOneMore(cs, k);
    }
    FitEnds(cs, room, k);
  }

  /** With room for all of it, the longest fit is the whole conversion. */
  lemma WholeFits(cs: seq<bv32>, room: nat, out: seq<bv16>)
    requires LongestFit(cs, room, out) && |Utf16Of(cs)| <= room
    ensures out == Utf16Of(cs)
  {
    assert cs[..|cs|] == cs;
  }

  /** The casts to char16_t of a code point, one unit or two. */
  method Split(codepoint: bv32) returns (wide: bool, high: bv16, low: bv16)
    ensures Units(codepoint) == if wide then [high, low] else [high]
  {
    wide := codepoint > 0xFFFF;
    if !wide {
      high, low := (codepoint & 0xFFFF) as bv16, 0;
    } else {
      var d := codepoint - 0x1_0000;
      high, low := (((d >> 10) + 0xD800) & 0xFFFF) as bv16, (((d & 0x3FF) + 0xDC00) & 0xFFFF) as bv16;
    }
  }

  lemma TakeOneMore(cs: seq<bv32>, k: nat)
    requires k < |cs|
    ensures Utf16Of(cs[..k + 1]) == Utf16Of(cs[..k]) + Units(cs[k])
  {
    assert cs[..k + 1] == cs[..k] + [cs[k]];
    Utf16OfSplit(cs[..k], [cs[k]]);
    Utf16OfCons(cs[k], []);
    assert [cs[k]] + [] == [cs[k]];
    assert Units(cs[k]) + [] == Units(cs[k]);
  }

  /** The loop below is about to read the `k`th code point. */
  ghost predicate AtCodepoint(src: seq<bv8>, cur: nat, cs: seq<bv32>, k: nat) {
    cur <= |src| && k <= |cs| && Tiles(src[cur..]) && Codepoints8(src[cur..]) == cs[k..]
  }

  /** The next code point of the loop below, which is the `k`th of the string, as one unit or two. */
  method NextUtf8(src: seq<bv8>, cur: nat, ghost cs: seq<bv32>, ghost k: nat)
    returns (u8len: nat, wide: bool, high: bv16, low: bv16)
    requires cur < |src| && AtCodepoint(src, cur, cs, k)
    ensures 0 < u8len && k < |cs| && AtCodepoint(src, cur + u8len, cs, k + 1)
    ensures Utf16Of(cs[..k + 1]) == Utf16Of(cs[..k]) + if wide then [high, low] else [high]
  {
    CodepointLenIsLeadLen(src[cur]);
    u8len := CodepointLen(src[cur]);
    var codepoint := Codepoint(src[cur..], u8len);
    NextCodepoint(src, cur, cs, k, codepoint);
    wide, high, low := Split(codepoint);
  }

  /** What the loop decodes is the `k`th code point, and it stands at the next one after it. */
  lemma NextCodepoint(src: seq<bv8>, cur: nat, cs: seq<bv32>, k: nat, c: bv32)
    requires cur < |src| && AtCodepoint(src, cur, cs, k) && LeadLen(src[cur]) <= |src| - cur
    requires c == Codepoint(src[cur..], LeadLen(src[cur]))
    ensures k < |cs| && c == cs[k] && AtCodepoint(src, cur + LeadLen(src[cur]), cs, k + 1)
    ensures Utf16Of(cs[..k + 1]) == Utf16Of(cs[..k]) + Units(c)
  {
    var same := Codepoints8At(src, cur);
    assert cs[k] == same && cs[k + 1..] == cs[k..][1..];
    TakeOneMore(cs, k);
  }

  /** Writes the units of one code point; when the second does not fit the end does not move. */
  method PutUnits(dst: array<bv16>, cur: nat, room: nat, wide: bool, high: bv16, low: bv16,
                  ghost before: seq<bv16>, ghost after: seq<bv16>)
    returns (next: nat, full: bool)
    requires cur < room <= dst.Length && dst[..cur] == before
    requires after == before + if wide then [high, low] else [high]
    modifies dst
    ensures next <= room && dst[..next] == if full then before else after
    ensures full ==> |after| > room && cur == next && next + 1 == room
    ensures forall i :: next <= i < dst.Length && !(full && i == next) ==> dst[i] == old(dst[i])
  {
    dst[cur] := high;
    next, full := cur + 1, false;
    if wide {
      if next >= room {
        return next - 1, true;
      }
      dst[next] := low;
      next := next + 1;
    }
  }

  /**
   utf8_to_utf16_no_null_terminator: the longest conversion of whole code points
   that fits. The one unit that may be touched past the end is the last of the room,
   by half of a pair that did not fit.
   */
  method Utf8ToUtf16NoNullTerminator(src: seq<bv8>, dst: array<bv16>, dstLen: nat) returns (end: nat)
    requires Tiles(src) && dstLen <= dst.Length
    modifies dst
    ensures end <= dstLen && LongestFit(Codepoints8(src), dstLen, dst[..end])
    ensures forall i :: end <= i < dst.Length && i + 1 != dstLen ==> dst[i] == old(dst[i])
  {
    ghost var cs := Codepoints8(src);
    ghost var k := 0;
    if dstLen == 0 {
      FullEnds(cs, 0, 0);
      return 0;
    }
    var u8cur: nat, u16cur: nat := 0, 0;
    assert src[0..] == src && cs[0..] == cs;
    while u8cur < |src| && u16cur < dstLen
      invariant u16cur <= dstLen && AtCodepoint(src, u8cur, cs, k)
      invariant dst[..u16cur] == Utf16Of(cs[..k])
      invariant forall i :: u16cur <= i < dst.Length ==> dst[i] == old(dst[i])
    {
      var u8len, wide, high, low := NextUtf8(src, u8cur, cs, k);
      var full;
      u16cur, full := PutUnits(dst, u16cur, dstLen, wide, high, low, Utf16Of(cs[..k]), Utf16Of(cs[..k + 1]));
      if full {
        FitEnds(cs, dstLen, k);
        return u16cur;
      }
      u8cur, k := u8cur + u8len, k + 1;
    }
    FullEnds(cs, dstLen, k);
    end := u16cur;
  }

  /** utf8_to_utf16: as above in one unit less, then a terminator. */
  method Utf8ToUtf16Fill(src: seq<bv8>, dst: array<bv16>, u16len: nat) returns (end: nat)
    requires Tiles(src) && 0 < u16len <= dst.Length
    modifies dst
    ensures end < u16len && LongestFit(Codepoints8(src), u16len - 1, dst[..end]) && dst[end] == 0
    ensures forall i :: end < i < dst.Length && i + 2 != u16len ==> dst[i] == old(dst[i])
    ensures |Utf8ToUtf16(src)| < u16len ==> dst[..end] == Utf8ToUtf16(src)
  {
    end := Utf8ToUtf16NoNullTerminator(src, dst, u16len - 1);
    ghost var out := dst[..end];
    dst[end] := 0;
    assert dst[..end] == out;
    if |Utf8ToUtf16(src)| < u16len {
      WholeFits(Codepoints8(src), u16len - 1, out);
    }
  }
}
