/**
 The other UTF-8 decoder of Unicode.cpp, utf32_at_internal, which counts the
 leading one bits with a moving mask, and walking a string with
 utf32_from_utf8_at.
 */
module UnicodeWalk {
  import opened Unicode
  import opened UnicodeStrings

  /** The cast of a char to char32_t; a signed char is extended with its sign. */
  function Widened(ch: bv8, charIsSigned: bool): bv32 {
    if charIsSigned && ch >= 0x80 then ch as bv32 | 0xFFFF_FF00 else ch as bv32
  }

  function MaskOf(n: nat): bv8 {
    if n == 1 then 0x40 else if n == 2 then 0x20 else if n == 3 then 0x10 else if n == 4 then 0x08
    else if n == 5 then 0x04 else if n == 6 then 0x02 else if n == 7 then 0x01 else 0
  }

  /** The leading one bits of a byte that is not ASCII. */
  function MaskLen(ch: bv8): (n: nat)
    ensures 1 <= n <= 8
  {
    if ch < 0xC0 then 1 else if ch < 0xE0 then 2 else if ch < 0xF0 then 3 else if ch < 0xF8 then 4
    else if ch < 0xFC then 5 else if ch < 0xFE then 6 else if ch < 0xFF then 7 else 8
  }

  /** The loop's sum over the first `n` bytes; nothing is carried. */
  function Summed(first: bv32, b: seq<bv8>, n: nat): bv32
    requires 1 <= n <= |b|
  {
    if n == 1 then first else ShiftAndMask(Summed(first, b, n - 1), b[n - 1])
  }

  /** The bits to ignore after the loop has read `n` bytes: the lead byte's ones, and all above. */
  function Ignored(n: nat): bv32 {
    if n == 0 then 0xFFFF_FF80 else if n == 1 then 0xFFFF_FFC0 else if n == 2 then 0xFFFF_FFE0
    else if n == 3 then 0xFFFF_FFF0
    else if n == 4 then 0xFFFF_FFF8 else if n == 5 then 0xFFFF_FFFC else if n == 6 then 0xFFFF_FFFE else 0xFFFF_FFFF
  }

  /** What the loop computes, and the bytes it reads. */
  function MaskDecoded(b: seq<bv8>, charIsSigned: bool): (bv32, nat)
    requires b != [] && b[0] < 0xFE && (b[0] < 0x80 || MaskLen(b[0]) <= |b|)
  {
    if b[0] < 0x80 then (b[0] as bv32, 1)
    else
      var n := MaskLen(b[0]);
      (Masked(Summed(Widened(b[0], charIsSigned), b, n), n), n)
  }

  function Masked(utf32: bv32, n: nat): bv32
    requires 1 <= n <= 6
  {
    Cleared(utf32, Ignored(n), n)
  }

  /** The bits of `all` cleared, shifted to the first of `n` bytes. */
  function Cleared(utf32: bv32, all: bv32, n: nat): bv32
    requires 1 <= n <= 6
  {
    utf32 & !(all << (6 * (n - 1)))
  }

  lemma MaskStep(n: nat)
    requires 1 <= n <= 7
    ensures MaskOf(n) >> 1 == MaskOf(n + 1) && Ignored(n - 1) | MaskOf(n) as bv32 == Ignored(n)
  {
  }

  /** The loop goes on exactly while the byte has more leading ones. */
  lemma MaskGuard(ch: bv8, n: nat)
    requires 0x80 <= ch < 0xFE && 1 <= n <= MaskLen(ch)
    ensures ch & MaskOf(n) != 0 <==> n < MaskLen(ch)
  {
    if n == 1 {
    } else if n == 2 {
    } else if n == 3 {
    } else if n == 4 {
    } else if n == 5 {
    } else {
    }
  }

  // The pieces of the loop, each on its own bits.

  method Widen(ch: bv8, charIsSigned: bool) returns (w: bv32)
    ensures w == Widened(ch, charIsSigned)
  {
    w := if charIsSigned && ch >= 0x80 then ch as bv32 | 0xFFFF_FF00 else ch as bv32;
  }

  method TestAscii(ch: bv8) returns (ascii: bool)
    ensures ascii <==> ch < 0x80
  {
    ascii := ch & 0x80 == 0;
  }

  method TestMask(ch: bv8, mask: bv8, ghost n: nat) returns (more: bool)
    requires 0x80 <= ch < 0xFE && 1 <= n <= MaskLen(ch) && mask == MaskOf(n)
    ensures more <==> n < MaskLen(ch)
  {
    MaskGuard(ch, n);
    more := ch & mask != 0;
  }

  method ShiftMask(mask: bv8, toIgnore: bv32, ghost n: nat) returns (nextMask: bv8, nextIgnore: bv32)
    requires 1 <= n <= 7 && mask == MaskOf(n) && toIgnore == Ignored(n - 1)
    ensures nextMask == MaskOf(n + 1) && nextIgnore == Ignored(n)
  {
    MaskStep(n);
    nextMask, nextIgnore := mask >> 1, toIgnore | mask as bv32;
  }

  lemma PlusIsOr(u: bv32, b: bv8)
    ensures (u << 6) + (b & 0x3F) as bv32 == ShiftAndMask(u, b)
  {
  }

  method SumNext(utf32: bv32, b: seq<bv8>, n: nat, ghost first: bv32) returns (next: bv32)
    requires 1 <= n < |b| && utf32 == Summed(first, b, n)
    ensures next == Summed(first, b, n + 1)
  {
    PlusIsOr(utf32, b[n]);
    next := (utf32 << 6) + (b[n] & 0x3F) as bv32;
  }

  method ClearIgnored(utf32: bv32, mask: bv8, toIgnore: bv32, n: nat) returns (ret: bv32)
    requires 1 <= n <= 6 && mask == MaskOf(n) && toIgnore == Ignored(n - 1)
    ensures ret == Masked(utf32, n)
  {
    MaskStep(n);
    var all := toIgnore | mask as bv32;
    assert all == Ignored(n);
    ret := ClearAll(utf32, all, n);
  }

  method ClearAll(utf32: bv32, all: bv32, n: nat) returns (ret: bv32)
    requires 1 <= n <= 6
    ensures ret == Cleared(utf32, all, n)
  {
    ret := utf32 & !(all << (6 * (n - 1)));
  }

  /**
   utf32_at_internal. For 0xFE and 0xFF its last shift exceeds the width of the result,
   which C++ leaves undefined.
   */
  method Utf32AtInternal(b: seq<bv8>, charIsSigned: bool) returns (ret: bv32, numRead: nat)
    requires b != [] && b[0] < 0xFE && (b[0] < 0x80 || MaskLen(b[0]) <= |b|)
    ensures (ret, numRead) == MaskDecoded(b, charIsSigned)
  {
    var firstChar := b[0];
    var ascii := TestAscii(firstChar);
    if ascii {
      return firstChar as bv32, 1;
    }
    var mask: bv8, toIgnore: bv32 := 0x40, 0xFFFF_FF80;
    numRead := 1;
    var utf32 := Widen(firstChar, charIsSigned);
    ghost var first := utf32;
    var more := TestMask(firstChar, mask, numRead);
    while more
      invariant 1 <= numRead <= MaskLen(firstChar) && mask == MaskOf(numRead)
      invariant more <==> numRead < MaskLen(firstChar)
      invariant utf32 == Summed(first, b, numRead)
      invariant toIgnore == Ignored(numRead - 1)
      decreases MaskLen(firstChar) - numRead
    {
      utf32 := SumNext(utf32, b, numRead, first);
      mask, toIgnore := ShiftMask(mask, toIgnore, numRead);
      numRead := numRead + 1;
      more := TestMask(firstChar, mask, numRead);
    }
    ret := ClearIgnored(utf32, mask, toIgnore, numRead);
  }

  // ---------------------------------------------------------------------------
  // The two decoders
  // ---------------------------------------------------------------------------

  lemma MaskedTwo(b0: bv8, b1: bv8, first: bv32)
    requires 0xC0 <= b0 < 0xE0 && first & 0xFF == b0 as bv32
    ensures ShiftAndMask(first, b1) & !(0xFFFF_FFE0 << 6) == ShiftAndMask((b0 & 0x1f) as bv32, b1)
  {
  }

  lemma MaskedThree(b0: bv8, b1: bv8, b2: bv8, first: bv32)
    requires 0xE0 <= b0 < 0xF0 && first & 0xFF == b0 as bv32
    ensures ShiftAndMask(ShiftAndMask(first, b1), b2) & !(0xFFFF_FFF0 << 12)
         == ShiftAndMask(ShiftAndMask((b0 & 0x0f) as bv32, b1), b2)
  {
  }

  lemma MaskedFour(b0: bv8, b1: bv8, b2: bv8, b3: bv8, first: bv32)
    requires 0xF0 <= b0 < 0xF8 && first & 0xFF == b0 as bv32
    ensures ShiftAndMask(ShiftAndMask(ShiftAndMask(first, b1), b2), b3) & !(0xFFFF_FFF8 << 18)
         == ShiftAndMask(ShiftAndMask(ShiftAndMask((b0 & 0x07) as bv32, b1), b2), b3)
  {
  }

  lemma WidenedByte(ch: bv8, charIsSigned: bool) returns (first: bv32)
    ensures first == Widened(ch, charIsSigned) && first & 0xFF == ch as bv32
  {
    first := Widened(ch, charIsSigned);
  }

  lemma MaskedAtTwo(u: bv32)
    ensures Masked(u, 2) == u & !(0xFFFF_FFE0 << 6)
  {
  }

  lemma MaskedAtThree(u: bv32)
    ensures Masked(u, 3) == u & !(0xFFFF_FFF0 << 12)
  {
  }

  lemma MaskedAtFour(u: bv32)
    ensures Masked(u, 4) == u & !(0xFFFF_FFF8 << 18)
  {
  }

  lemma AgreeTwo(b: seq<bv8>, charIsSigned: bool)
    requires |b| >= 2 && 0xC0 <= b[0] < 0xE0
    ensures MaskDecoded(b, charIsSigned).0 == Codepoint(b, 2)
  {
    var first := WidenedByte(b[0], charIsSigned);
    assert Summed(first, b, 1) == first;
    MaskedTwo(b[0], b[1], first);
    MaskedAtTwo(Summed(first, b, 2));
  }

  lemma AgreeThree(b: seq<bv8>, charIsSigned: bool)
    requires |b| >= 3 && 0xE0 <= b[0] < 0xF0
    ensures MaskDecoded(b, charIsSigned).0 == Codepoint(b, 3)
  {
    var first := WidenedByte(b[0], charIsSigned);
    assert Summed(first, b, 2) == ShiftAndMask(first, b[1]);
    MaskedThree(b[0], b[1], b[2], first);
    MaskedAtThree(Summed(first, b, 3));
  }

  lemma AgreeFour(b: seq<bv8>, charIsSigned: bool)
    requires |b| >= 4 && 0xF0 <= b[0] < 0xF8
    ensures MaskDecoded(b, charIsSigned).0 == Codepoint(b, 4)
  {
    var first := WidenedByte(b[0], charIsSigned);
    assert Summed(first, b, 2) == ShiftAndMask(first, b[1]);
    assert Summed(first, b, 3) == ShiftAndMask(ShiftAndMask(first, b[1]), b[2]);
    MaskedFour(b[0], b[1], b[2], b[3], first);
    MaskedAtFour(Summed(first, b, 4));
  }

  lemma LoneContinuation(b: seq<bv8>, charIsSigned: bool)
    requires b != [] && 0x80 <= b[0] < 0xC0
    ensures MaskDecoded(b, charIsSigned).0 != Codepoint(b, 1)
  {
    var first := WidenedByte(b[0], charIsSigned);
  }

  /**
   The two decoders read the same code point of the same length exactly when the
   lead byte is ASCII or announces two to four bytes, whatever follows and
   whether or not char is signed.
   */
  lemma DecodersAgree(b: seq<bv8>, charIsSigned: bool)
    requires b != [] && b[0] < 0xFE && (b[0] < 0x80 || MaskLen(b[0]) <= |b|) && LeadLen(b[0]) <= |b|
    ensures MaskDecoded(b, charIsSigned) == (Codepoint(b, LeadLen(b[0])), LeadLen(b[0]))
       <==> b[0] < 0x80 || 0xC0 <= b[0] < 0xF8
  {
    if 0x80 <= b[0] < 0xC0 {
      LoneContinuation(b, charIsSigned);
    } else if 0xC0 <= b[0] < 0xE0 {
      AgreeTwo(b, charIsSigned);
    } else if 0xE0 <= b[0] < 0xF0 {
      AgreeThree(b, charIsSigned);
    } else if 0xF0 <= b[0] < 0xF8 {
      AgreeFour(b, charIsSigned);
    }
  }

  /** A lone continuation byte stands for its six bits. */
  lemma DecodedOfOne(b: seq<bv8>, charIsSigned: bool)
    requires b != [] && 0x80 <= b[0] < 0xC0
    ensures MaskDecoded(b, charIsSigned) == ((b[0] % 64) as bv32, 1)
  {
    var first := WidenedByte(b[0], charIsSigned);
    assert Masked(first, 1) == first & 0x3F;
  }

  // ---------------------------------------------------------------------------
  // Walking a string
  // ---------------------------------------------------------------------------

  /** The cast to int32_t. */
  function AsInt32(v: bv32): int {
    if v >= 0x8000_0000 then v as int - 0x1_0000_0000 else v as int
  }

  /** No more than 31 bits are kept, so the cast to int32_t does not make a code point negative. */
  lemma MaskedIsPositive(u: bv32, n: nat)
    requires 1 <= n <= 6
    ensures Masked(u, n) < 0x8000_0000
  {
    if n == 1 {
      assert Masked(u, 1) == u & 0x3F;
    } else if n == 2 {
      MaskedAtTwo(u);
    } else if n == 3 {
      MaskedAtThree(u);
    } else if n == 4 {
      MaskedAtFour(u);
    } else if n == 5 {
      assert Masked(u, 5) == u & 0x3FF_FFFF;
    } else {
      assert Masked(u, 6) == u & 0x7FFF_FFFF;
    }
  }

  lemma DecodedIsPositive(b: seq<bv8>, charIsSigned: bool)
    requires b != [] && b[0] < 0xFE && (b[0] < 0x80 || MaskLen(b[0]) <= |b|)
    ensures AsInt32(MaskDecoded(b, charIsSigned).0) == MaskDecoded(b, charIsSigned).0 as int
    ensures 1 <= MaskDecoded(b, charIsSigned).1 <= |b|
  {
    if b[0] >= 0x80 {
      var n := MaskLen(b[0]);
      MaskedIsPositive(Summed(Widened(b[0], charIsSigned), b, n), n);
    }
  }

  /**
   utf32_from_utf8_at: -1 past the end; otherwise the code point at `index`, which is never
   negative, and the next index.
   */
  method Utf32FromUtf8At(src: seq<bv8>, index: nat, nextIndex: nat, charIsSigned: bool)
    returns (ret: int, next: nat)
    requires index < |src| ==> src[index] < 0xFE && (src[index] < 0x80 || index + MaskLen(src[index]) <= |src|)
    ensures index >= |src| ==> ret == -1 && next == nextIndex
    ensures index < |src| ==>
      var (codepoint, numRead) := MaskDecoded(src[index..], charIsSigned);
      ret == codepoint as int && next == index + numRead && index < next <= |src|
  {
    next := nextIndex;
    if index >= |src| {
      return -1, next;
    }
    DecodedIsPositive(src[index..], charIsSigned);
    var codepoint, numRead := Utf32AtInternal(src[index..], charIsSigned);
    ret := AsInt32(codepoint);
    if ret >= 0 {
      next := index + numRead;
    }
  }

  lemma ScalarIsPositive(c: bv32)
    requires IsScalar(c)
    ensures AsInt32(c) == c as int >= 0
  {
  }

  lemma WellFormedLead(e: seq<bv8>)
    requires IsUtf8Char(e)
    ensures e[0] < 0x80 || 0xC0 <= e[0] < 0xF8
  {
  }

  lemma CodepointOfPrefix(e: seq<bv8>, rest: seq<bv8>)
    requires 1 <= |e| <= 4
    ensures Codepoint(e + rest, |e|) == Codepoint(e, |e|)
  {
    var b := e + rest;
    assert forall i :: 0 <= i < |e| ==> b[i] == e[i];
  }

  /** One step of a walk over well-formed text. */
  lemma WalkStep(b: seq<bv8>, charIsSigned: bool) returns (c: bv32, n: nat)
    requires WellFormed(b) && b != []
    ensures b[0] < 0xFE && (b[0] < 0x80 || MaskLen(b[0]) <= |b|)
    ensures (c, n) == MaskDecoded(b, charIsSigned) && 1 <= n <= |b|
    ensures IsScalar(c) && WellFormed(b[n..]) && Tiles(b) && Tiles(b[n..])
    ensures Codepoints8(b) == [c] + Codepoints8(b[n..])
  {
    var e, scalar, rest := FirstChar(b);
    WellFormedLead(e);
    WellFormedDecodes(rest);
    CharThenRest(e, scalar, rest);
    CodepointOfPrefix(e, rest);
    DecodersAgree(b, charIsSigned);
    c, n := scalar, |e|;
    assert b[n..] == rest;
  }

  lemma CanStep(b: seq<bv8>, charIsSigned: bool)
    requires WellFormed(b) && b != []
    ensures b[0] < 0xFE && (b[0] < 0x80 || MaskLen(b[0]) <= |b|)
    ensures 1 <= MaskDecoded(b, charIsSigned).1 <= |b| && WellFormed(b[MaskDecoded(b, charIsSigned).1..])
  {
    var c, n := WalkStep(b, charIsSigned);
  }

  /** The code points utf32_from_utf8_at returns, called again and again at its next index. */
  function Walk(b: seq<bv8>, charIsSigned: bool): seq<bv32>
    requires WellFormed(b)
    decreases |b|
  {
    if b == [] then []
    else
      CanStep(b, charIsSigned);
      var (c, n) := MaskDecoded(b, charIsSigned);
      [c] + Walk(b[n..], charIsSigned)
  }

  lemma {:induction false} WalkDecodes(b: seq<bv8>, charIsSigned: bool)
    requires WellFormed(b)
    ensures Tiles(b) && Walk(b, charIsSigned) == Codepoints8(b)
    decreases |b|
  {
    if b != [] {
      var c, n := WalkStep(b, charIsSigned);
      WalkDecodes(b[n..], charIsSigned);
    }
  }

  /** What a walk needs of the text at `index`, and what it has still to give. */
  ghost predicate WalksAt(src: seq<bv8>, index: nat, cs: seq<bv32>) {
    index <= |src| && WellFormed(src[index..]) && Tiles(src[index..]) && Codepoints8(src[index..]) == cs
  }

  lemma WalkNext(src: seq<bv8>, index: nat, cs: seq<bv32>, charIsSigned: bool) returns (c: bv32, n: nat)
    requires WalksAt(src, index, cs) && index < |src|
    ensures src[index] < 0xFE && (src[index] < 0x80 || index + MaskLen(src[index]) <= |src|)
    ensures (c, n) == MaskDecoded(src[index..], charIsSigned) && 1 <= n <= |src| - index
    ensures IsScalar(c) && AsInt32(c) == c as int >= 0
    ensures cs != [] && cs[0] == c && WalksAt(src, index + n, cs[1..])
  {
    c, n := WalkStep(src[index..], charIsSigned);
    ScalarIsPositive(c);
    assert src[index..][n..] == src[index + n..];
  }

  /** One call on well-formed text. */
  method WalkOne(src: seq<bv8>, index: nat, charIsSigned: bool, ghost cs: seq<bv32>) returns (v: int, next: nat)
    requires WalksAt(src, index, cs) && index < |src|
    ensures cs != [] && v == cs[0] as int && index < next <= |src| && WalksAt(src, next, cs[1..])
  {
    ghost var c, n := WalkNext(src, index, cs, charIsSigned);
    v, next := Utf32FromUtf8At(src, index, index, charIsSigned);
  }

  /** The values of code points as utf32_from_utf8_at returns them. */
  function Values(cs: seq<bv32>): (vs: seq<int>)
    ensures |vs| == |cs| && forall i :: 0 <= i < |cs| ==> vs[i] == cs[i] as int
  {
    seq(|cs|, i requires 0 <= i < |cs| => cs[i] as int)
  }

  /**
   utf32_from_utf8_at called again and again at its own next index: on well-formed text
   it returns the code points of the text one after the other.
   */
  method WalkText(src: seq<bv8>, charIsSigned: bool) returns (vs: seq<int>)
    requires WellFormed(src)
    ensures Tiles(src) && vs == Values(Codepoints8(src)) == Values(Walk(src, charIsSigned))
  {
    WellFormedDecodes(src);
    WalkDecodes(src, charIsSigned);
    assert src[0..] == src;
    ghost var all := Codepoints8(src);
    ghost var k := 0;
    vs := [];
    var index := 0;
    assert all[0..] == all;
    while index < |src|
      invariant 0 <= k <= |all| && 0 <= index <= |src| && WalksAt(src, index, all[k..])
      invariant |vs| == k && forall i :: 0 <= i < k ==> vs[i] == all[i] as int
      decreases |src| - index
    {
      assert k < |all| ==> all[k..][1..] == all[k + 1..];
      var v;
      v, index := WalkOne(src, index, charIsSigned, all[k..]);
      vs, k := vs + [v], k + 1;
    }
  }

  /** Walking the encoder's output so gives back the scalars. */
  method WalkEncoded(cs: seq<bv32>, charIsSigned: bool) returns (vs: seq<int>)
    ensures vs == Values(Scalars(cs))
  {
    EncodeThenDecode(cs);
    vs := WalkText(Utf8Of(cs), charIsSigned);
  }

  /** Walking the encoder's output gives back exactly the scalars it was given, in order. */
  lemma WalkRecoversScalars(cs: seq<bv32>, charIsSigned: bool)
    ensures WellFormed(Utf8Of(cs)) && Walk(Utf8Of(cs), charIsSigned) == Scalars(cs)
  {
    EncodeThenDecode(cs);
    WalkDecodes(Utf8Of(cs), charIsSigned);
  }
}
