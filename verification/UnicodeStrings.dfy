/**
 Whole strings: what the converters of Unicode.cpp compute, and how the
 conversions undo each other.
 */
module UnicodeStrings {
  import opened Unicode

  // ---------------------------------------------------------------------------
  // UTF-16 code units
  // ---------------------------------------------------------------------------

  predicate IsHigh(u: bv16) {
    0xD800 <= u <= 0xDBFF
  }

  predicate IsLow(u: bv16) {
    0xDC00 <= u <= 0xDFFF
  }

  /** The masks the loops test with pick out the two ranges. */
  lemma SurrogateMasks(u: bv16)
    ensures (u & 0xFC00 == 0xD800) <==> IsHigh(u)
    ensures (u & 0xFC00 == 0xDC00) <==> IsLow(u)
  {
  }

  /** The code point of a surrogate pair, as utf16_to_utf8 computes it. */
  function PairScalar(h: bv16, l: bv16): bv32 {
    (((h as bv32 - 0xD800) << 10) | (l as bv32 - 0xDC00)) + 0x1_0000
  }

  /** The casts to char16_t of the two halves of a code point above the BMP. */
  function HighUnit(c: bv32): bv16 {
    ((((c - 0x1_0000) >> 10) + 0xD800) & 0xFFFF) as bv16
  }

  function LowUnit(c: bv32): bv16 {
    ((((c - 0x1_0000) & 0x3FF) + 0xDC00) & 0xFFFF) as bv16
  }

  /** What utf8_to_utf16_no_null_terminator writes for a code point. */
  function Units(c: bv32): (e: seq<bv16>)
    ensures |e| == if c <= 0xFFFF then 1 else 2
  {
    if c <= 0xFFFF then [(c & 0xFFFF) as bv16] else [HighUnit(c), LowUnit(c)]
  }

  /** The pair arithmetic of section 2.2 of RFC 2781. */
  lemma PairScalarIs(h: bv16, l: bv16)
    requires IsHigh(h) && IsLow(l)
    ensures PairScalar(h, l) == 0x1_0000 + (h as bv32 - 0xD800) * 0x400 + (l as bv32 - 0xDC00)
  {
  }

  lemma HalvesJoin(d: bv32)
    ensures ((d >> 10) << 10) | (d & 0x3FF) == d
  {
  }

  lemma HalvesSplit(x: bv32, y: bv32)
    requires x < 0x400 && y < 0x400
    ensures (x << 10) | y < 0x10_0000
    ensures ((x << 10) | y) >> 10 == x && ((x << 10) | y) & 0x3FF == y
  {
  }

  lemma PairFrom(h: bv16, l: bv16, x: bv32, y: bv32, d: bv32)
    requires h as bv32 - 0xD800 == x && l as bv32 - 0xDC00 == y && d == (x << 10) | y
    ensures PairScalar(h, l) == d + 0x1_0000
  {
  }

  lemma HighFrom(c: bv32, d: bv32, h: bv16)
    requires c == d + 0x1_0000 && IsHigh(h) && d >> 10 == h as bv32 - 0xD800
    ensures HighUnit(c) == h
  {
  }

  lemma LowFrom(c: bv32, d: bv32, l: bv16)
    requires c == d + 0x1_0000 && IsLow(l) && d & 0x3FF == l as bv32 - 0xDC00
    ensures LowUnit(c) == l
  {
  }

  lemma HighOffset(h: bv16) returns (x: bv32)
    requires IsHigh(h)
    ensures x < 0x400 && x == h as bv32 - 0xD800
  {
    x := h as bv32 - 0xD800;
  }

  lemma LowOffset(l: bv16) returns (y: bv32)
    requires IsLow(l)
    ensures y < 0x400 && y == l as bv32 - 0xDC00
  {
    y := l as bv32 - 0xDC00;
  }

  lemma JoinOffsets(x: bv32, y: bv32) returns (d: bv32)
    requires x < 0x400 && y < 0x400
    ensures d == (x << 10) | y && d < 0x10_0000 && d >> 10 == x && d & 0x3FF == y
  {
    HalvesSplit(x, y);
    d := (x << 10) | y;
  }

  lemma Above(d: bv32) returns (c: bv32)
    requires d < 0x10_0000
    ensures 0x1_0000 <= c <= 0x10FFFF && c == d + 0x1_0000
  {
    c := d + 0x1_0000;
  }

  /** The code point of a pair has the two halves back. */
  lemma PairHalves(h: bv16, l: bv16) returns (c: bv32)
    requires IsHigh(h) && IsLow(l)
    ensures 0x1_0000 <= c <= 0x10FFFF && PairScalar(h, l) == c
    ensures HighUnit(c) == h && LowUnit(c) == l
  {
    var x := HighOffset(h);
    var y := LowOffset(l);
    var d := JoinOffsets(x, y);
    c := Above(d);
    PairFrom(h, l, x, y, d);
    HighFrom(c, d, h);
    LowFrom(c, d, l);
  }

  lemma PairScalarUnits(h: bv16, l: bv16)
    requires IsHigh(h) && IsLow(l)
    ensures IsScalar(PairScalar(h, l)) && Units(PairScalar(h, l)) == [h, l]
  {
    var c := PairHalves(h, l);
  }

  lemma PairOfHalves(h: bv16, l: bv16, d: bv32)
    requires h as bv32 - 0xD800 == d >> 10 && l as bv32 - 0xDC00 == d & 0x3FF
    ensures PairScalar(h, l) == d + 0x1_0000
  {
    HalvesJoin(d);
  }

  lemma Below(c: bv32) returns (d: bv32)
    requires 0x1_0000 <= c <= 0x10FFFF
    ensures d == c - 0x1_0000 && d < 0x10_0000 && d + 0x1_0000 == c
  {
    d := c - 0x1_0000;
  }

  lemma SplitHalves(c: bv32, d: bv32) returns (h: bv16, l: bv16)
    requires d == c - 0x1_0000 && d < 0x10_0000
    ensures h == HighUnit(c) && IsHigh(h) && h as bv32 - 0xD800 == d >> 10
    ensures l == LowUnit(c) && IsLow(l) && l as bv32 - 0xDC00 == d & 0x3FF
  {
    h, l := HighUnit(c), LowUnit(c);
  }

  lemma HalvesStandFor(c: bv32) returns (h: bv16, l: bv16)
    requires 0x1_0000 <= c <= 0x10FFFF
    ensures h == HighUnit(c) && l == LowUnit(c) && IsHigh(h) && IsLow(l) && PairScalar(h, l) == c
  {
    var d := Below(c);
    h, l := SplitHalves(c, d);
    PairOfHalves(h, l, d);
  }

  /** A supplementary scalar becomes a surrogate pair that stands for it. */
  lemma UnitsPair(c: bv32) returns (h: bv16, l: bv16)
    requires 0x1_0000 <= c <= 0x10FFFF
    ensures Units(c) == [h, l] && IsHigh(h) && IsLow(l) && PairScalar(h, l) == c
  {
    h, l := HalvesStandFor(c);
  }

  lemma SingleUnit(u: bv16)
    ensures Units(u as bv32) == [u]
    ensures IsScalar(u as bv32) <==> !IsHigh(u) && !IsLow(u)
  {
  }

  lemma UnitScalar(u: bv16) returns (c: bv32)
    ensures c == u as bv32 && Units(c) == [u]
    ensures IsScalar(c) <==> !IsHigh(u) && !IsLow(u)
  {
    SingleUnit(u);
    c := u as bv32;
  }

  lemma UnitsSingle(c: bv32)
    requires IsScalar(c) && c <= 0xFFFF
    ensures !IsHigh(Units(c)[0]) && Units(c)[0] as bv32 == c
  {
  }

  predicate StartsWithPair(s: seq<bv16>) {
    |s| >= 2 && IsHigh(s[0]) && IsLow(s[1])
  }

  /** The code points the loops over UTF-16 see; an unpaired surrogate is one of them. */
  function Codepoints16(s: seq<bv16>): seq<bv32> {
    if s == [] then []
    else if StartsWithPair(s) then [PairScalar(s[0], s[1])] + Codepoints16(s[2..])
    else [s[0] as bv32] + Codepoints16(s[1..])
  }

  /** The UTF-16 of a sequence of code points. */
  function Utf16Of(cs: seq<bv32>): seq<bv16> {
    if cs == [] then [] else Units(cs[0]) + Utf16Of(cs[1..])
  }

  // ---------------------------------------------------------------------------
  // UTF-8 bytes
  // ---------------------------------------------------------------------------

  /** The UTF-8 of a sequence of code points; those that are not scalars contribute nothing. */
  function Utf8Of(cs: seq<bv32>): seq<bv8> {
    if cs == [] then [] else Encoded(cs[0]) + Utf8Of(cs[1..])
  }

  /** The lengths announced by the leading bytes end exactly at the end of the string. */
  predicate Tiles(b: seq<bv8>) {
    b == [] || (LeadLen(b[0]) <= |b| && Tiles(b[LeadLen(b[0])..]))
  }

  /** The code points the loops over UTF-8 see, whether or not the bytes are well-formed. */
  function Codepoints8(b: seq<bv8>): seq<bv32>
    requires Tiles(b)
  {
    if b == [] then [] else [Codepoint(b, LeadLen(b[0]))] + Codepoints8(b[LeadLen(b[0])..])
  }

  /** UTF8-octets of the grammar: a sequence of UTF8-chars. */
  ghost predicate WellFormed(b: seq<bv8>)
    decreases |b|
  {
    b == [] || exists n :: 1 <= n <= |b| && IsUtf8Char(b[..n]) && WellFormed(b[n..])
  }

  // ---------------------------------------------------------------------------
  // The conversions
  // ---------------------------------------------------------------------------

  function Utf16ToUtf8(s: seq<bv16>): seq<bv8> {
    Utf8Of(Codepoints16(s))
  }

  function Utf8ToUtf16(b: seq<bv8>): seq<bv16>
    requires Tiles(b)
  {
    Utf16Of(Codepoints8(b))
  }

  /** The scalars among `cs`, in order. */
  function Scalars(cs: seq<bv32>): seq<bv32> {
    if cs == [] then [] else (if IsScalar(cs[0]) then [cs[0]] else []) + Scalars(cs[1..])
  }

  /** The encoder emits well-formed UTF-8, and decoding it gives back exactly the scalars. */
  lemma {:induction false} EncodeThenDecode(cs: seq<bv32>)
    ensures WellFormed(Utf8Of(cs)) && Tiles(Utf8Of(cs)) && Codepoints8(Utf8Of(cs)) == Scalars(cs)
  {
    if cs != [] {
      EncodeThenDecode(cs[1..]);
      if IsScalar(cs[0]) {
        EncodedDecodes(cs[0]);
        EncodedWellFormed(cs[0]);
        CharThenRest(Encoded(cs[0]), cs[0], Utf8Of(cs[1..]));
      } else {
        assert Encoded(cs[0]) + Utf8Of(cs[1..]) == Utf8Of(cs[1..]);
      }
    }
  }

  lemma CharThenRest(e: seq<bv8>, c: bv32, rest: seq<bv8>)
    requires IsUtf8Char(e) && LeadLen(e[0]) == |e| && Codepoint(e, |e|) == c && WellFormed(rest) && Tiles(rest)
    ensures WellFormed(e + rest) && Tiles(e + rest)
    ensures Codepoints8(e + rest) == [c] + Codepoints8(rest)
  {
    var b := e + rest;
    assert b[..|e|] == e && b[|e|..] == rest;
  }

  // ---------------------------------------------------------------------------
  // UTF-16 to UTF-8 and back
  // ---------------------------------------------------------------------------

  /** The unit at `i` is not a surrogate, or is next to the other half of its pair. */
  predicate IsPaired(s: seq<bv16>, i: nat)
    requires i < |s|
  {
    || (!IsHigh(s[i]) && !IsLow(s[i]))
    || (IsHigh(s[i]) && i + 1 < |s| && IsLow(s[i + 1]))
    || (IsLow(s[i]) && i > 0 && IsHigh(s[i - 1]))
  }

  /** The units from `i` on without the unpaired surrogates. */
  function DropUnpaired(s: seq<bv16>, i: nat): seq<bv16>
    requires i <= |s|
    decreases |s| - i
  {
    if i == |s| then [] else (if IsPaired(s, i) then [s[i]] else []) + DropUnpaired(s, i + 1)
  }

  lemma DropPair(s: seq<bv16>, i: nat)
    requires i + 1 < |s| && IsHigh(s[i]) && IsLow(s[i + 1])
    ensures DropUnpaired(s, i) == [s[i], s[i + 1]] + DropUnpaired(s, i + 2)
  {
    assert IsPaired(s, i) && IsPaired(s, i + 1);
    assert DropUnpaired(s, i) == [s[i]] + ([s[i + 1]] + DropUnpaired(s, i + 2));
  }

  /** No pair starts at `i` or just before it. */
  predicate IsAlone(s: seq<bv16>, i: nat)
    requires i < |s|
  {
    !(i + 1 < |s| && IsHigh(s[i]) && IsLow(s[i + 1])) && !(0 < i && IsHigh(s[i - 1]) && IsLow(s[i]))
  }

  lemma DropSingle(s: seq<bv16>, i: nat)
    requires i < |s| && IsAlone(s, i)
    ensures DropUnpaired(s, i) == (if !IsHigh(s[i]) && !IsLow(s[i]) then [s[i]] else []) + DropUnpaired(s, i + 1)
  {
  }

  /** The scalars of `s` as UTF-16 again. */
  function Recovered(s: seq<bv16>): seq<bv16> {
    Utf16Of(Scalars(Codepoints16(s)))
  }

  lemma ScalarFirst(c: bv32, cs: seq<bv32>)
    ensures Utf16Of(Scalars([c] + cs)) == (if IsScalar(c) then Units(c) else []) + Utf16Of(Scalars(cs))
  {
    assert ([c] + cs)[1..] == cs;
    if IsScalar(c) {
      assert ([c] + Scalars(cs))[1..] == Scalars(cs);
    } else {
      assert [] + Scalars(cs) == Scalars(cs);
    }
  }

  lemma PairFirst(s: seq<bv16>) returns (c: bv32)
    requires StartsWithPair(s)
    ensures IsScalar(c) && Units(c) == [s[0], s[1]] && Codepoints16(s) == [c] + Codepoints16(s[2..])
  {
    PairScalarUnits(s[0], s[1]);
    c := PairScalar(s[0], s[1]);
  }

  lemma FirstUnit(s: seq<bv16>, c: bv32)
    requires s != [] && !StartsWithPair(s) && c == s[0] as bv32
    ensures Codepoints16(s) == [c] + Codepoints16(s[1..])
  {
  }

  lemma SingleFirst(s: seq<bv16>) returns (c: bv32)
    requires s != [] && !StartsWithPair(s)
    ensures IsScalar(c) <==> !IsHigh(s[0]) && !IsLow(s[0])
    ensures Units(c) == [s[0]] && Codepoints16(s) == [c] + Codepoints16(s[1..])
  {
    c := UnitScalar(s[0]);
    FirstUnit(s, c);
  }

  lemma RecoveredPair(s: seq<bv16>)
    requires StartsWithPair(s)
    ensures Recovered(s) == [s[0], s[1]] + Recovered(s[2..])
  {
    var c := PairFirst(s);
    ScalarFirst(c, Codepoints16(s[2..]));
  }

  lemma RecoveredSingle(s: seq<bv16>)
    requires s != [] && !StartsWithPair(s)
    ensures Recovered(s) == (if !IsHigh(s[0]) && !IsLow(s[0]) then [s[0]] else []) + Recovered(s[1..])
  {
    var c := SingleFirst(s);
    ScalarFirst(c, Codepoints16(s[1..]));
  }

  lemma NotBoth(u: bv16)
    ensures !(IsHigh(u) && IsLow(u))
  {
  }

  lemma RecoveredFrom(s: seq<bv16>, i: nat)
    requires i < |s|
    ensures StartsWithPair(s[i..]) <==> i + 1 < |s| && IsHigh(s[i]) && IsLow(s[i + 1])
    ensures StartsWithPair(s[i..]) ==> Recovered(s[i..]) == [s[i], s[i + 1]] + Recovered(s[i + 2..])
    ensures !StartsWithPair(s[i..]) ==>
      Recovered(s[i..]) == (if !IsHigh(s[i]) && !IsLow(s[i]) then [s[i]] else []) + Recovered(s[i + 1..])
  {
    if StartsWithPair(s[i..]) {
      assert s[i..][2..] == s[i + 2..];
      RecoveredPair(s[i..]);
    } else {
      assert s[i..][1..] == s[i + 1..];
      RecoveredSingle(s[i..]);
    }
  }

  lemma {:induction false} RecoveredDrops(s: seq<bv16>, i: nat)
    requires i <= |s|
    requires 0 < i < |s| ==> !IsHigh(s[i - 1]) || !IsLow(s[i])
    ensures Recovered(s[i..]) == DropUnpaired(s, i)
    decreases |s| - i
  {
    if i < |s| {
      RecoveredFrom(s, i);
      if StartsWithPair(s[i..]) {
        NotBoth(s[i + 1]);
        RecoveredDrops(s, i + 2);
        DropPair(s, i);
      } else {
        RecoveredDrops(s, i + 1);
        DropSingle(s, i);
      }
    }
  }

  /** UTF-16 to UTF-8 to UTF-16 drops exactly the unpaired surrogates, for every string of code units. */
  lemma Utf16RoundTrip(s: seq<bv16>)
    ensures WellFormed(Utf16ToUtf8(s)) && Tiles(Utf16ToUtf8(s))
    ensures Utf8ToUtf16(Utf16ToUtf8(s)) == DropUnpaired(s, 0)
  {
    EncodeThenDecode(Codepoints16(s));
    RecoveredDrops(s, 0);
    assert s[0..] == s;
  }

  // ---------------------------------------------------------------------------
  // UTF-8 to UTF-16 and back
  // ---------------------------------------------------------------------------

  predicate AllScalars(cs: seq<bv32>) {
    forall i :: 0 <= i < |cs| ==> IsScalar(cs[i])
  }

  lemma CharDecodes(e: seq<bv8>) returns (c: bv32)
    requires IsUtf8Char(e)
    ensures LeadLen(e[0]) == |e| && Codepoint(e, |e|) == c && IsScalar(c) && Encoded(c) == e
  {
    Utf8CharEncodes(e);
    c := Codepoint(e, |e|);
  }

  lemma FirstChar(b: seq<bv8>) returns (e: seq<bv8>, c: bv32, rest: seq<bv8>)
    requires WellFormed(b) && b != []
    ensures b == e + rest && |rest| < |b| && WellFormed(rest) && IsUtf8Char(e)
    ensures LeadLen(e[0]) == |e| && Codepoint(e, |e|) == c && IsScalar(c) && Encoded(c) == e
  {
    e, rest := SplitChar(b);
    c := CharDecodes(e);
  }

  lemma SplitChar(b: seq<bv8>) returns (e: seq<bv8>, rest: seq<bv8>)
    requires WellFormed(b) && b != []
    ensures b == e + rest && |rest| < |b| && WellFormed(rest) && IsUtf8Char(e)
  {
    var n :| 1 <= n <= |b| && IsUtf8Char(b[..n]) && WellFormed(b[n..]);
    e, rest := b[..n], b[n..];
  }

  lemma ScalarThenRest(c: bv32, cs: seq<bv32>)
    requires IsScalar(c) && AllScalars(cs)
    ensures AllScalars([c] + cs) && Utf8Of([c] + cs) == Encoded(c) + Utf8Of(cs)
  {
    assert ([c] + cs)[1..] == cs;
  }

  lemma {:induction false} WellFormedDecodes(b: seq<bv8>)
    requires WellFormed(b)
    ensures Tiles(b) && AllScalars(Codepoints8(b)) && Utf8Of(Codepoints8(b)) == b
    decreases |b|
  {
    if b != [] {
      var e, c, rest := FirstChar(b);
      WellFormedDecodes(rest);
      CharThenRest(e, c, rest);
      ScalarThenRest(c, Codepoints8(rest));
    }
  }

  lemma {:induction false} CodepointsOfUnits(cs: seq<bv32>)
    requires AllScalars(cs)
    ensures Codepoints16(Utf16Of(cs)) == cs
  {
    if cs != [] {
      CodepointsOfUnits(cs[1..]);
      UnitsThenRest(cs[0], Utf16Of(cs[1..]));
    }
  }

  lemma UnitsThenRest(c: bv32, rest: seq<bv16>)
    requires IsScalar(c)
    ensures Codepoints16(Units(c) + rest) == [c] + Codepoints16(rest)
  {
    var s := Units(c) + rest;
    if c <= 0xFFFF {
      UnitsSingle(c);
      assert s[1..] == rest;
    } else {
      var h, l := UnitsPair(c);
      assert s[2..] == rest;
    }
  }

  /** UTF-8 to UTF-16 to UTF-8 is the identity on well-formed UTF-8. */
  lemma Utf8RoundTrip(b: seq<bv8>)
    requires WellFormed(b)
    ensures Tiles(b) && Utf16ToUtf8(Utf8ToUtf16(b)) == b
  {
    WellFormedDecodes(b);
    CodepointsOfUnits(Codepoints8(b));
  }
}
