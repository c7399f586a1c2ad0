/**
 The UTF-8, UTF-16 and UTF-32 conversions of Unicode.cpp, as functions on
 sequences of code units: what the loops of module UnicodeConverters compute.
 The well-formedness grammar is that of section 4 of RFC 3629.
 */
module Unicode {

  // ---------------------------------------------------------------------------
  // One code point
  // ---------------------------------------------------------------------------

  predicate IsSurrogate(c: bv32) {
    0xD800 <= c <= 0xDFFF
  }

  /** A Unicode scalar value. */
  predicate IsScalar(c: bv32) {
    c <= 0x10FFFF && !IsSurrogate(c)
  }

  /** utf32_codepoint_utf8_length: the number of bytes for a scalar, 0 for anything else. */
  function Utf8Length(c: bv32): (n: nat)
    ensures n == 0 <==> !IsScalar(c)
    ensures n <= 4
  {
    if c < 0x80 then 1
    else if c < 0x800 then 2
    else if c < 0x1_0000 then (if c < 0xD800 || c > 0xDFFF then 3 else 0)
    else if c <= 0x10FFFF then 4
    else 0
  }

  /** A trailing byte: `(c | kByteMark) & kByteMask`. */
  function TrailByte(c: bv32): bv8 {
    ((c | 0x80) & 0xBF) as bv8
  }

  /** kFirstByteMark. */
  function FirstByteMark(bytes: nat): bv32 {
    if bytes == 2 then 0xC0 else if bytes == 3 then 0xE0 else if bytes == 4 then 0xF0 else 0
  }

  /** The cast to uint8_t of a leading byte. */
  function LeadByte(c: bv32, bytes: nat): bv8 {
    ((c | FirstByteMark(bytes)) & 0xFF) as bv8
  }

  /** What utf32_codepoint_to_utf8 writes. */
  function Encoded(c: bv32): (e: seq<bv8>)
    ensures |e| == Utf8Length(c)
  {
    var n := Utf8Length(c);
    if n == 0 then []
    else if n == 1 then [LeadByte(c, 1)]
    else if n == 2 then [LeadByte(c >> 6, 2), TrailByte(c)]
    else if n == 3 then [LeadByte(c >> 12, 3), TrailByte(c >> 6), TrailByte(c)]
    else [LeadByte(c >> 18, 4), TrailByte(c >> 12), TrailByte(c >> 6), TrailByte(c)]
  }

  /** utf8_codepoint_len: the length announced by a leading byte, looked up in a packed constant. */
  function CodepointLen(ch: bv8): nat {
    PackedLen(ch) as nat + 1
  }

  function PackedLen(ch: bv8): bv2 {
    var shift: bv32 := ((ch >> 3) & 0x1e) as bv32;
    ((0xe500_0000 as bv32 >> shift) & 3) as bv2
  }

  /** utf8_shift_and_mask. */
  function ShiftAndMask(codePoint: bv32, byte: bv8): bv32 {
    (codePoint << 6) | (0x3F & byte) as bv32
  }

  /** utf8_to_utf32_codepoint on the first `length` bytes. */
  function Codepoint(src: seq<bv8>, length: nat): bv32
    requires length <= |src|
  {
    if length == 1 then src[0] as bv32
    else if length == 2 then ShiftAndMask((src[0] & 0x1f) as bv32, src[1])
    else if length == 3 then ShiftAndMask(ShiftAndMask((src[0] & 0x0f) as bv32, src[1]), src[2])
    else if length == 4 then
      ShiftAndMask(ShiftAndMask(ShiftAndMask((src[0] & 0x07) as bv32, src[1]), src[2]), src[3])
    else 0xffff
  }

  // What the decoder makes of any bytes, well-formed or not, as arithmetic.

  lemma CodepointOfOne(src: seq<bv8>)
    requires |src| >= 1
    ensures Codepoint(src, 1) == src[0] as bv32
  {
  }

  lemma ShiftIsTimes(c: bv32, b: bv8)
    requires c < 0x400_0000
    ensures ShiftAndMask(c, b) == c * 64 + (b % 64) as bv32
  {
  }

  lemma LeadBits(b: bv8)
    ensures (b & 0x1f) == b % 32 && (b & 0x0f) == b % 16 && (b & 0x07) == b % 8
  {
  }

  lemma SmallProduct(c: bv32, b: bv8, bound: bv32)
    requires c < bound <= 0x10_0000
    ensures c * 64 + (b % 64) as bv32 < bound * 64
  {
  }

  lemma CodepointOfTwoBytes(src: seq<bv8>)
    requires |src| >= 2
    ensures Codepoint(src, 2) == (src[0] % 32) as bv32 * 64 + (src[1] % 64) as bv32
  {
    LeadBits(src[0]);
    ShiftIsTimes((src[0] & 0x1f) as bv32, src[1]);
  }

  lemma CodepointOfThreeBytes(src: seq<bv8>)
    requires |src| >= 3
    ensures Codepoint(src, 3) ==
      ((src[0] % 16) as bv32 * 64 + (src[1] % 64) as bv32) * 64 + (src[2] % 64) as bv32
  {
    LeadBits(src[0]);
    var c := (src[0] & 0x0f) as bv32;
    ShiftIsTimes(c, src[1]);
    SmallProduct(c, src[1], 16);
    ShiftIsTimes(ShiftAndMask(c, src[1]), src[2]);
  }

  lemma CodepointOfFourBytes(src: seq<bv8>)
    requires |src| >= 4
    ensures Codepoint(src, 4) ==
      (((src[0] % 8) as bv32 * 64 + (src[1] % 64) as bv32) * 64 + (src[2] % 64) as bv32) * 64 + (src[3] % 64) as bv32
  {
    LeadBits(src[0]);
    var c := (src[0] & 0x07) as bv32;
    ShiftIsTimes(c, src[1]);
    SmallProduct(c, src[1], 8);
    var d := ShiftAndMask(c, src[1]);
    ShiftIsTimes(d, src[2]);
    SmallProduct(d, src[2], 512);
    ShiftIsTimes(ShiftAndMask(d, src[2]), src[3]);
  }

  predicate IsTail(b: bv8) {
    0x80 <= b <= 0xBF
  }

  predicate IsUtf8Pair(b0: bv8, b1: bv8) {
    0xC2 <= b0 <= 0xDF && IsTail(b1)
  }

  predicate IsUtf8Triple(b0: bv8, b1: bv8, b2: bv8) {
    IsTail(b2) &&
    (|| (b0 == 0xE0 && 0xA0 <= b1 <= 0xBF) || (0xE1 <= b0 <= 0xEC && IsTail(b1))
     || (b0 == 0xED && 0x80 <= b1 <= 0x9F) || (0xEE <= b0 <= 0xEF && IsTail(b1)))
  }

  predicate IsUtf8Quad(b0: bv8, b1: bv8, b2: bv8, b3: bv8) {
    IsTail(b2) && IsTail(b3) &&
    (|| (b0 == 0xF0 && 0x90 <= b1 <= 0xBF) || (0xF1 <= b0 <= 0xF3 && IsTail(b1))
     || (b0 == 0xF4 && 0x80 <= b1 <= 0x8F))
  }

  /** One UTF8-char of the grammar. */
  predicate IsUtf8Char(e: seq<bv8>) {
    if |e| == 1 then e[0] <= 0x7F
    else if |e| == 2 then IsUtf8Pair(e[0], e[1])
    else if |e| == 3 then IsUtf8Triple(e[0], e[1], e[2])
    else |e| == 4 && IsUtf8Quad(e[0], e[1], e[2], e[3])
  }

  /** The length of a UTF8-char by its first byte; a continuation byte counts as one. */
  function LeadLen(ch: bv8): (n: nat)
    ensures 1 <= n <= 4
  {
    if ch < 0xC0 then 1 else if ch < 0xE0 then 2 else if ch < 0xF0 then 3 else 4
  }

  /** The packed constant holds the whole table of lengths. */
  lemma CodepointLenIsLeadLen(ch: bv8)
    ensures CodepointLen(ch) == LeadLen(ch)
  {
  }

  // Six bits at a time: a trailing byte and the shift undo each other.

  lemma ShiftUndoesTrail(c: bv32)
    ensures ShiftAndMask(c >> 6, TrailByte(c)) == c && IsTail(TrailByte(c))
  {
  }

  lemma ShiftsCompose(c: bv32)
    ensures (c >> 6) >> 6 == c >> 12 && (c >> 12) >> 6 == c >> 18
  {
  }

  lemma LeadOf(c: bv32)
    ensures c < 0x80 ==> LeadByte(c, 1) as bv32 == c && LeadByte(c, 1) <= 0x7F
    ensures c < 0x20 ==> (LeadByte(c, 2) & 0x1f) as bv32 == c && 0xC0 <= LeadByte(c, 2) <= 0xDF
    ensures c < 0x10 ==> (LeadByte(c, 3) & 0x0f) as bv32 == c && 0xE0 <= LeadByte(c, 3) <= 0xEF
    ensures c < 0x08 ==> (LeadByte(c, 4) & 0x07) as bv32 == c && 0xF0 <= LeadByte(c, 4) <= 0xF7
  {
  }

  lemma TwoBytesDecode(c: bv32)
    requires c < 0x800
    ensures ShiftAndMask((LeadByte(c >> 6, 2) & 0x1f) as bv32, TrailByte(c)) == c
  {
    ShiftUndoesTrail(c);
    LeadOf(c >> 6);
  }

  lemma ThreeBytesDecode(c: bv32)
    requires c < 0x1_0000
    ensures ShiftAndMask(ShiftAndMask((LeadByte(c >> 12, 3) & 0x0f) as bv32, TrailByte(c >> 6)), TrailByte(c)) == c
  {
    ShiftsCompose(c);
    ShiftUndoesTrail(c);
    ShiftUndoesTrail(c >> 6);
    LeadOf(c >> 12);
  }

  lemma FourBytesDecode(c: bv32)
    requires c < 0x20_0000
    ensures ShiftAndMask(ShiftAndMask(ShiftAndMask((LeadByte(c >> 18, 4) & 0x07) as bv32, TrailByte(c >> 12)),
                                      TrailByte(c >> 6)), TrailByte(c)) == c
  {
    ShiftsCompose(c);
    ShiftUndoesTrail(c);
    ShiftUndoesTrail(c >> 6);
    ShiftUndoesTrail(c >> 12);
    LeadOf(c >> 18);
  }

  // The bytes by name, apart from the bits they carry.

  lemma EncodedAsTwo(c: bv32)
    requires 0x80 <= c < 0x800
    ensures Encoded(c) == [LeadByte(c >> 6, 2), TrailByte(c)]
  {
  }

  lemma EncodedAsThree(c: bv32)
    requires 0x800 <= c < 0x1_0000 && !IsSurrogate(c)
    ensures Encoded(c) == [LeadByte(c >> 12, 3), TrailByte(c >> 6), TrailByte(c)]
  {
  }

  lemma EncodedAsFour(c: bv32)
    requires 0x1_0000 <= c <= 0x10FFFF
    ensures Encoded(c) == [LeadByte(c >> 18, 4), TrailByte(c >> 12), TrailByte(c >> 6), TrailByte(c)]
  {
  }

  lemma CodepointOfThree(src: seq<bv8>, first: bv32, a: bv8, b: bv8)
    requires |src| == 3 && first == (src[0] & 0x0f) as bv32 && a == src[1] && b == src[2]
    ensures Codepoint(src, 3) == ShiftAndMask(ShiftAndMask(first, a), b)
  {
  }

  lemma CodepointOfFour(src: seq<bv8>, first: bv32, a: bv8, b: bv8, d: bv8)
    requires |src| == 4 && first == (src[0] & 0x07) as bv32 && a == src[1] && b == src[2] && d == src[3]
    ensures Codepoint(src, 4) == ShiftAndMask(ShiftAndMask(ShiftAndMask(first, a), b), d)
  {
  }

  lemma EncodedTwoDecodes(c: bv32)
    requires 0x80 <= c < 0x800
    ensures Codepoint(Encoded(c), 2) == c
  {
    EncodedAsTwo(c);
    TwoBytesDecode(c);
  }

  lemma EncodedThreeDecodes(c: bv32)
    requires 0x800 <= c < 0x1_0000 && !IsSurrogate(c)
    ensures Codepoint(Encoded(c), 3) == c
  {
    EncodedAsThree(c);
    CodepointOfThree(Encoded(c), (LeadByte(c >> 12, 3) & 0x0f) as bv32, TrailByte(c >> 6), TrailByte(c));
    ThreeBytesDecode(c);
  }

  lemma EncodedFourDecodes(c: bv32)
    requires 0x1_0000 <= c <= 0x10FFFF
    ensures Codepoint(Encoded(c), 4) == c
  {
    EncodedAsFour(c);
    CodepointOfFour(Encoded(c), (LeadByte(c >> 18, 4) & 0x07) as bv32,
                    TrailByte(c >> 12), TrailByte(c >> 6), TrailByte(c));
    FourBytesDecode(c);
  }

  /** The encoding of a scalar decodes to it. */
  lemma EncodedDecodes(c: bv32)
    requires IsScalar(c)
    ensures Codepoint(Encoded(c), Utf8Length(c)) == c
  {
    if c < 0x80 {
      LeadOf(c);
    } else if c < 0x800 {
      EncodedTwoDecodes(c);
    } else if c < 0x1_0000 {
      EncodedThreeDecodes(c);
    } else {
      EncodedFourDecodes(c);
    }
  }

  lemma EncodedTwoWellFormed(c: bv32)
    requires 0x80 <= c < 0x800
    ensures IsUtf8Char(Encoded(c))
  {
  }

  lemma EncodedThreeWellFormed(c: bv32)
    requires 0x800 <= c < 0x1_0000 && !IsSurrogate(c)
    ensures IsUtf8Char(Encoded(c))
  {
  }

  lemma EncodedFourWellFormed(c: bv32)
    requires 0x1_0000 <= c <= 0x10FFFF
    ensures IsUtf8Char(Encoded(c))
  {
  }

  /** The encoding of a scalar is one UTF8-char, which announces its length. */
  lemma EncodedWellFormed(c: bv32)
    requires IsScalar(c)
    ensures IsUtf8Char(Encoded(c)) && LeadLen(Encoded(c)[0]) == Utf8Length(c)
  {
    if c < 0x80 {
      LeadOf(c);
    } else if c < 0x800 {
      EncodedTwoWellFormed(c);
    } else if c < 0x1_0000 {
      EncodedThreeWellFormed(c);
    } else {
      EncodedFourWellFormed(c);
    }
  }

  // Back from the bytes of a UTF8-char to the scalar they encode.

  lemma ScalarOfPair(b0: bv8, b1: bv8) returns (c: bv32)
    requires IsUtf8Pair(b0, b1)
    ensures 0x80 <= c < 0x800 && LeadByte(c >> 6, 2) == b0 && TrailByte(c) == b1
  {
    c := ShiftAndMask((b0 & 0x1f) as bv32, b1);
  }

  lemma ScalarOfTriple(b0: bv8, b1: bv8, b2: bv8) returns (c: bv32)
    requires IsUtf8Triple(b0, b1, b2)
    ensures 0x800 <= c < 0x1_0000 && !IsSurrogate(c)
    ensures LeadByte(c >> 12, 3) == b0 && TrailByte(c >> 6) == b1 && TrailByte(c) == b2
  {
    c := ShiftAndMask(ShiftAndMask((b0 & 0x0f) as bv32, b1), b2);
  }

  lemma ScalarOfQuad(b0: bv8, b1: bv8, b2: bv8, b3: bv8) returns (c: bv32)
    requires IsUtf8Quad(b0, b1, b2, b3)
    ensures 0x1_0000 <= c <= 0x10FFFF
    ensures LeadByte(c >> 18, 4) == b0 && TrailByte(c >> 12) == b1 && TrailByte(c >> 6) == b2 && TrailByte(c) == b3
  {
    c := ShiftAndMask(ShiftAndMask(ShiftAndMask((b0 & 0x07) as bv32, b1), b2), b3);
  }

  lemma EncodedFromTwo(c: bv32, e: seq<bv8>)
    requires 0x80 <= c < 0x800 && |e| == 2 && LeadByte(c >> 6, 2) == e[0] && TrailByte(c) == e[1]
    ensures Encoded(c) == e
  {
  }

  lemma EncodedFromThree(c: bv32, e: seq<bv8>)
    requires 0x800 <= c < 0x1_0000 && !IsSurrogate(c) && |e| == 3
    requires LeadByte(c >> 12, 3) == e[0] && TrailByte(c >> 6) == e[1] && TrailByte(c) == e[2]
    ensures Encoded(c) == e
  {
  }

  lemma EncodedFromFour(c: bv32, e: seq<bv8>)
    requires 0x1_0000 <= c <= 0x10FFFF && |e| == 4
    requires LeadByte(c >> 18, 4) == e[0] && TrailByte(c >> 12) == e[1]
    requires TrailByte(c >> 6) == e[2] && TrailByte(c) == e[3]
    ensures Encoded(c) == e
  {
  }

  lemma ScalarOfUtf8Char(e: seq<bv8>) returns (c: bv32)
    requires IsUtf8Char(e)
    ensures IsScalar(c) && Encoded(c) == e
  {
    if |e| == 1 {
      c := e[0] as bv32;
      LeadOf(c);
    } else if |e| == 2 {
      c := ScalarOfPair(e[0], e[1]);
      EncodedFromTwo(c, e);
    } else if |e| == 3 {
      c := ScalarOfTriple(e[0], e[1], e[2]);
      EncodedFromThree(c, e);
    } else {
      c := ScalarOfQuad(e[0], e[1], e[2], e[3]);
      EncodedFromFour(c, e);
    }
  }

  /** Every UTF8-char decodes to a scalar whose encoding it is: the encoding is the only one, hence the shortest. */
  lemma Utf8CharEncodes(e: seq<bv8>)
    requires IsUtf8Char(e)
    ensures LeadLen(e[0]) == |e|
    ensures IsScalar(Codepoint(e, |e|)) && Encoded(Codepoint(e, |e|)) == e
  {
    var c := ScalarOfUtf8Char(e);
    EncodedDecodes(c);
    EncodedWellFormed(c);
  }
}
