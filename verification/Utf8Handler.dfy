/** Conversion between UTF-8 byte strings and strings of 32-bit wide characters
    (opentrep/basic/UTF8Handler.cpp; section 3 of RFC 3629).

    Bytes and wide characters are integers here; shifts are products and
    quotients, masks are remainders, and a mark that is set above the bits of a
    number is added to it (EncodingFollowsTheTable). The wide characters are signed. */
module Utf8 {
  import opened Basics

  type Byte = b: int | 0 <= b < 256
  type WChar = c: int | -0x8000_0000 <= c < 0x8000_0000
  type Bytes = seq<Byte>
  type Wide = seq<WChar>

  /** The table of 6 offsets. */
  function Offset(nb: nat): int
    requires nb <= 5
  {
    if nb == 0 then 0x0000_0000 else if nb == 1 then 0x0000_3080 else if nb == 2 then 0x000E_2080
    else if nb == 3 then 0x03C8_2080 else if nb == 4 then 0xFA08_2080 else 0x8208_2080
  }

  /** The table of 256 entries, by ranges. */
  function TrailingBytes(b: Byte): nat {
    if b < 0xC0 then 0 else if b < 0xE0 then 1 else if b < 0xF0 then 2
    else if b < 0xF8 then 3 else if b < 0xFC then 4 else 5
  }

  /** The number of the topmost bits that are set, of a number of 8 bits. */
  function LeadingOnes(b: int, bits: nat): nat
    decreases bits
  {
    if bits == 0 || b < 128 then 0 else 1 + LeadingOnes(2 * (b - 128), bits - 1)
  }

  /** A lead byte announces one trailing byte for each set bit behind its first one; two
      set bits at least make a lead byte, and FE and FF count as FD. */
  lemma TrailingBytesAreAnnounced(b: Byte)
    ensures TrailingBytes(b) == var n := LeadingOnes(b, 8); if n <= 1 then 0 else if n <= 6 then n - 1 else 5
  {
    var b1 := 2 * (b - 128);
    var b2 := 2 * (b1 - 128);
    var b3 := 2 * (b2 - 128);
    var b4 := 2 * (b3 - 128);
    var b5 := 2 * (b4 - 128);
    assert LeadingOnes(b, 8) == if b < 128 then 0 else 1 + LeadingOnes(b1, 7);
    assert LeadingOnes(b1, 7) == if b1 < 128 then 0 else 1 + LeadingOnes(b2, 6);
    assert LeadingOnes(b2, 6) == if b2 < 128 then 0 else 1 + LeadingOnes(b3, 5);
    assert LeadingOnes(b3, 5) == if b3 < 128 then 0 else 1 + LeadingOnes(b4, 4);
    assert LeadingOnes(b4, 4) == if b4 < 128 then 0 else 1 + LeadingOnes(b5, 3);
    assert LeadingOnes(b5, 3) == 0 <==> b5 < 128;
    hide LeadingOnes;
  }

  // ---------------------------------------------------------------------
  // Decoding

  // The accumulator after 1 to 4 more bytes, with a shift by 6 bits between two of them.

  function Add1(tmp: int, a: Byte): int {
    tmp + a
  }

  function Add2(tmp: int, a: Byte, b: Byte): int {
    Add1((tmp + a) * 64, b)
  }

  function Add3(tmp: int, a: Byte, b: Byte, c: Byte): int {
    Add2((tmp + a) * 64, b, c)
  }

  function Add4(tmp: int, a: Byte, b: Byte, c: Byte, d: Byte): int {
    Add3((tmp + a) * 64, b, c, d)
  }

  /** The loop ends at the end of the string, or on a NUL byte. */
  predicate Exits(s: Bytes, idx: nat) {
    idx == |s| || (idx < |s| && s[idx] == 0)
  }

  /** The number of bytes that one turn of the loop consumes: the lead bytes of
      the sequences of 5 and 6 bytes match no case of the switch. */
  function Stride(b: Byte): nat {
    if TrailingBytes(b) <= 3 then TrailingBytes(b) + 1 else 0
  }

  /** The character at i, made of 1 to 4 bytes. */
  function UnitAt(s: Bytes, i: nat): (c: WChar)
    requires i < |s| && 1 <= Stride(s[i]) <= |s| - i
  {
    var n := Stride(s[i]);
    if n == 1 then Add1(0, s[i]) - Offset(0)
    else if n == 2 then Add2(0, s[i], s[i + 1]) - Offset(1)
    else if n == 3 then Add3(0, s[i], s[i + 1], s[i + 2]) - Offset(2)
    else Add4(0, s[i], s[i + 1], s[i + 2], s[i + 3]) - Offset(3)
  }

  /** From idx, the lead bytes chain up to an exit of the loop. */
  predicate Lands(s: Bytes, idx: nat)
    decreases |s| - idx
  {
    Exits(s, idx) || (idx < |s| && Stride(s[idx]) > 0 && Lands(s, idx + Stride(s[idx])))
  }

  lemma LandsWithin(s: Bytes, idx: nat)
    requires Lands(s, idx)
    ensures idx <= |s|
  {
  }

  function Decode(s: Bytes, idx: nat): Wide
    requires Lands(s, idx)
    decreases |s| - idx
  {
    if Exits(s, idx) then []
    else
      var next := idx + Stride(s[idx]);
      LandsWithin(s, next);
      [UnitAt(s, idx)] + Decode(s, next)
  }

  // The cases of the switch; each but the last falls through to the next.

  method Case0(src: Bytes, idx: nat, tmp: int) returns (idx': nat, tmp': int)
    requires idx < |src|
    ensures idx' == idx + 1 && tmp' == Add1(tmp, src[idx])
  {
    tmp' := tmp + src[idx];
    idx' := idx + 1;
  }

  method Case1(src: Bytes, idx: nat, tmp: int) returns (idx': nat, tmp': int)
    requires idx + 1 < |src|
    ensures idx' == idx + 2 && tmp' == Add2(tmp, src[idx], src[idx + 1])
  {
    idx', tmp' := Case0(src, idx + 1, (tmp + src[idx]) * 64);
  }

  method Case2(src: Bytes, idx: nat, tmp: int) returns (idx': nat, tmp': int)
    requires idx + 2 < |src|
    ensures idx' == idx + 3
    ensures tmp' == Add3(tmp, src[idx], src[idx + 1], src[idx + 2])
  {
    idx', tmp' := Case1(src, idx + 1, (tmp + src[idx]) * 64);
  }

  method Case3(src: Bytes, idx: nat, tmp: int) returns (idx': nat, tmp': int)
    requires idx + 3 < |src|
    ensures idx' == idx + 4
    ensures tmp' == Add4(tmp, src[idx], src[idx + 1], src[idx + 2], src[idx + 3])
  {
    idx', tmp' := Case2(src, idx + 1, (tmp + src[idx]) * 64);
  }

  /** One character, by the number of trailing bytes that its lead byte announces. */
  method ReadUnit(src: Bytes, start: nat) returns (idx: nat, tmp: int)
    requires start < |src| && 1 <= Stride(src[start]) <= |src| - start
    ensures idx == start + Stride(src[start])
    ensures tmp == UnitAt(src, start)
  {
    var nb := TrailingBytes(src[start]);
    if nb == 3 {
      idx, tmp := Case3(src, start, 0);
    } else if nb == 2 {
      idx, tmp := Case2(src, start, 0);
    } else if nb == 1 {
      idx, tmp := Case1(src, start, 0);
    } else {
      idx, tmp := Case0(src, start, 0);
    }
    tmp := tmp - Offset(nb);
  }

  lemma DecodeStep(s: Bytes, idx: nat, w: Wide)
    requires Lands(s, idx) && !Exits(s, idx)
    ensures var next := idx + Stride(s[idx]);
            && idx < next <= |s| && Lands(s, next)
            && w + Decode(s, idx) == w + [UnitAt(s, idx)] + Decode(s, next)
  {
    var next := idx + Stride(s[idx]);
    LandsWithin(s, next);
  }

  method ToWideString(src: Bytes) returns (w: Wide)
    requires Lands(src, 0)
    ensures w == Decode(src, 0) + [0]
  {
    w := [];
    var idx := 0;
    while idx != |src|
      invariant Lands(src, idx)
      invariant w + Decode(src, idx) == Decode(src, 0)
      decreases |src| - idx
    {
      if src[idx] == 0 {
        break;
      }
      DecodeStep(src, idx, w);
      var tmp;
      idx, tmp := ReadUnit(src, idx);
      w := w + [tmp];
    }
    assert w == Decode(src, 0);
    w := w + [0];
  }

  // ---------------------------------------------------------------------
  // Where the decoding loop stops

  /** The index after one more turn of the loop; a lead byte of 5 or 6 bytes
      leaves it where it is. */
  function Next(s: Bytes, idx: nat): nat {
    if Exits(s, idx) || idx >= |s| then idx else idx + Stride(s[idx])
  }

  function Visit(s: Bytes, idx: nat, turns: nat): nat
    decreases turns
  {
    if turns == 0 then idx else Visit(s, Next(s, idx), turns - 1)
  }

  /** The bytes on which the loop stays where it is. */
  lemma StuckIff(s: Bytes, idx: nat)
    requires idx < |s| && s[idx] != 0
    ensures Next(s, idx) == idx <==> s[idx] >= 0xF8
  {
  }

  ghost predicate Stops(s: Bytes, idx: nat) {
    exists turns: nat :: Exits(s, Visit(s, idx, turns))
  }

  lemma {:induction false} TurnsToExit(s: Bytes, idx: nat) returns (turns: nat)
    requires Lands(s, idx)
    ensures Exits(s, Visit(s, idx, turns))
    decreases |s| - idx
  {
    if Exits(s, idx) {
      turns := 0;
      assert Visit(s, idx, 0) == idx;
    } else {
      turns := TurnsToExit(s, Next(s, idx));
      turns := turns + 1;
    }
  }

  lemma {:induction false} LandsIfExits(s: Bytes, idx: nat, turns: nat)
    requires Exits(s, Visit(s, idx, turns))
    ensures Lands(s, idx)
    decreases turns
  {
    if turns > 0 {
      LandsIfExits(s, Next(s, idx), turns - 1);
    }
  }

  /** The loop started at idx stops, and does so without ever reading behind
      the terminating NUL, exactly when the lead bytes chain up to an exit. */
  lemma StopsIffLands(s: Bytes, idx: nat)
    ensures Lands(s, idx) <==> Stops(s, idx)
  {
    if Lands(s, idx) {
      var turns := TurnsToExit(s, idx);
    }
    if Stops(s, idx) {
      var turns: nat :| Exits(s, Visit(s, idx, turns));
      LandsIfExits(s, idx, turns);
    }
  }

  /** Some turn of the loop leaves the index on the size. */
  ghost predicate ReachesTheSize(s: Bytes) {
    exists turns: nat :: Visit(s, 0, turns) == |s|
  }

  /** On a NUL-free string, that is so exactly when the lead bytes chain up. */
  lemma ReachesTheSizeIff(s: Bytes)
    requires forall i | 0 <= i < |s| :: s[i] != 0
    ensures ReachesTheSize(s) <==> Lands(s, 0)
  {
    if ReachesTheSize(s) {
      var turns: nat :| Visit(s, 0, turns) == |s|;
      LandsIfExits(s, 0, turns);
    }
    if Lands(s, 0) {
      var turns := TurnsToExit(s, 0);
      assert Visit(s, 0, turns) == |s|;
    }
  }

  /** A lead byte of a sequence of 5 or 6 bytes keeps the loop where it is, and a
      truncated sequence leads it over the size. */
  lemma DecodingCanFail()
    ensures !Stops([0xF8], 0) && !Stops([0xC3], 0)
  {
    StopsIffLands([0xF8], 0);
    StopsIffLands([0xC3], 0);
  }

  // ---------------------------------------------------------------------
  // Encoding

  /** The cast to char. */
  function Low8(x: int): Byte {
    x % 256
  }

  // The bytes of a character: a head, and tails of 6 bits each.

  function Head2(ch: int): Byte {
    Low8(ch / 64 + 0xC0)
  }

  function Head3(ch: int): Byte {
    Low8(ch / 4096 + 0xE0)
  }

  function Head4(ch: int): Byte {
    Low8(ch / 262144 + 0xF0)
  }

  function Tail0(ch: int): Byte {
    ch % 64 + 0x80
  }

  function Tail6(ch: int): Byte {
    ch / 64 % 64 + 0x80
  }

  function Tail12(ch: int): Byte {
    ch / 4096 % 64 + 0x80
  }

  predicate IsCodePoint(ch: WChar) {
    0 < ch < 0x11_0000
  }

  /** The bytes written for one character; none beyond the last code point. */
  function EncodeUnit(ch: WChar): Bytes {
    if ch < 0x80 then [Low8(ch)]
    else if ch < 0x800 then [Head2(ch), Tail0(ch)]
    else if ch < 0x1_0000 then [Head3(ch), Tail6(ch), Tail0(ch)]
    else if ch < 0x11_0000 then [Head4(ch), Tail12(ch), Tail6(ch), Tail0(ch)]
    else []
  }

  /** What is no code point: a negative character leaves its lowest byte, one above
      0x10FFFF leaves nothing. */
  lemma OtherCharactersAreCut(ch: WChar)
    requires ch < 0 || ch >= 0x11_0000
    ensures var e := EncodeUnit(ch);
            if ch < 0 then |e| == 1 && (ch - e[0]) % 256 == 0 else e == []
  {
  }

  // The table of section 3 of RFC 3629: a head marked by 110, 1110 or 11110, tails
  // marked by 10, and the bits behind the marks, which make up the character.

  predicate IsRow2(a: int, b: int, ch: int) {
    a / 32 == 6 && b / 64 == 2 && ch == a % 32 * 64 + b % 64
  }

  predicate IsRow3(a: int, b: int, c: int, ch: int) {
    a / 16 == 14 && b / 64 == 2 && c / 64 == 2 && ch == (a % 16 * 64 + b % 64) * 64 + c % 64
  }

  predicate IsRow4(a: int, b: int, c: int, d: int, ch: int) {
    && a / 8 == 30 && b / 64 == 2 && c / 64 == 2 && d / 64 == 2
    && ch == ((a % 8 * 64 + b % 64) * 64 + c % 64) * 64 + d % 64
  }

  lemma Row2(ch: WChar)
    requires 0x80 <= ch < 0x800
    ensures IsRow2(Head2(ch), Tail0(ch), ch)
  {
    assert Head2(ch) == ch / 64 + 0xC0;
  }

  lemma Row3(ch: WChar)
    requires 0x800 <= ch < 0x1_0000
    ensures IsRow3(Head3(ch), Tail6(ch), Tail0(ch), ch)
  {
    DigitsMakeTheNumber(ch);
    assert Head3(ch) == ch / 4096 + 0xE0;
  }

  lemma Row4(ch: WChar)
    requires 0x1_0000 <= ch < 0x11_0000
    ensures IsRow4(Head4(ch), Tail12(ch), Tail6(ch), Tail0(ch), ch)
  {
    DigitsMakeTheNumber(ch);
    assert Head4(ch) == ch / 262144 + 0xF0;
  }

  /** Every code point is written as its row of the table says. */
  lemma EncodingFollowsTheTable(ch: WChar)
    requires IsCodePoint(ch)
    ensures var e := EncodeUnit(ch);
            if ch < 0x80 then e == [ch]
            else if ch < 0x800 then |e| == 2 && IsRow2(e[0], e[1], ch)
            else if ch < 0x1_0000 then |e| == 3 && IsRow3(e[0], e[1], e[2], ch)
            else |e| == 4 && IsRow4(e[0], e[1], e[2], e[3], ch)
  {
    hide IsRow2;
    hide IsRow3;
    hide IsRow4;
    if 0x80 <= ch < 0x800 {
      Row2(ch);
    } else if 0x800 <= ch < 0x1_0000 {
      Row3(ch);
    } else if 0x1_0000 <= ch {
      Row4(ch);
    }
  }

  function Encode(w: Wide, i: nat): Bytes
    requires i <= |w|
    decreases |w| - i
  {
    if i == |w| || w[i] == 0 then [] else EncodeUnit(w[i]) + Encode(w, i + 1)
  }

  lemma EncodeStep(w: Wide, i: nat, s: Bytes)
    requires i < |w| && w[i] != 0
    ensures s + Encode(w, i) == s + EncodeUnit(w[i]) + Encode(w, i + 1)
  {
    ConcatIsAssociative(s, EncodeUnit(w[i]), Encode(w, i + 1));
  }

  method WriteUnit(ch: WChar) returns (unit: Bytes)
    ensures unit == EncodeUnit(ch)
  {
    unit := [];
    if ch < 0x80 {
      unit := unit + [Low8(ch)];
    } else if ch < 0x800 {
      unit := unit + [Head2(ch)];
      unit := unit + [Tail0(ch)];
    } else if ch < 0x1_0000 {
      unit := unit + [Head3(ch)];
      unit := unit + [Tail6(ch)];
      unit := unit + [Tail0(ch)];
    } else if ch < 0x11_0000 {
      unit := unit + [Head4(ch)];
      unit := unit + [Tail12(ch)];
      unit := unit + [Tail6(ch)];
      unit := unit + [Tail0(ch)];
    }
  }

  method ToSimpleString(src: Wide) returns (s: Bytes)
    ensures s == Encode(src, 0) + [0]
  {
    s := [];
    var i := 0;
    while i < |src| && src[i] != 0
      invariant i <= |src|
      invariant s + Encode(src, i) == Encode(src, 0)
    {
      var unit := WriteUnit(src[i]);
      EncodeStep(src, i, s);
      s := s + unit;
      i := i + 1;
    }
    assert s == Encode(src, 0);
    s := s + [0];
  }

  // ---------------------------------------------------------------------
  // Round trips

  predicate IsTail(b: Byte) {
    0x80 <= b <= 0xBF
  }

  predicate IsShort2(a: Byte, b: Byte) {
    0xC2 <= a <= 0xDF && IsTail(b)
  }

  /** The shortest form only: the surrogates ED A0 80 to ED BF BF, which section 3
      of RFC 3629 forbids, are converted like any other character. */
  predicate IsShort3(a: Byte, b: Byte, c: Byte) {
    ((a == 0xE0 && 0xA0 <= b <= 0xBF) || (0xE1 <= a <= 0xEF && IsTail(b))) && IsTail(c)
  }

  predicate IsShort4(a: Byte, b: Byte, c: Byte, d: Byte) {
    && ((a == 0xF0 && 0x90 <= b <= 0xBF) || (0xF1 <= a <= 0xF3 && IsTail(b)) || (a == 0xF4 && 0x80 <= b <= 0x8F))
    && IsTail(c) && IsTail(d)
  }

  /** At idx there is a sequence in its shortest form, other than NUL. */
  predicate IsShortAt(s: Bytes, i: nat) {
    && i < |s| && 1 <= Stride(s[i]) <= |s| - i
    && var n := Stride(s[i]);
       if n == 1 then 0 < s[i] < 0x80
       else if n == 2 then IsShort2(s[i], s[i + 1])
       else if n == 3 then IsShort3(s[i], s[i + 1], s[i + 2])
       else IsShort4(s[i], s[i + 1], s[i + 2], s[i + 3])
  }

  // A character decoded from its own bytes.

  lemma DigitsMakeTheNumber(u: nat)
    ensures u == (u / 4096 * 64 + u / 64 % 64) * 64 + u % 64
    ensures u / 4096 == u / 262144 * 64 + u / 4096 % 64
  {
    assert u / 64 / 64 == u / 4096;
    assert u / 4096 / 64 == u / 262144;
  }

  lemma Unit2RoundTrip(ch: WChar)
    requires 0x80 <= ch < 0x800
    ensures IsShort2(Head2(ch), Tail0(ch))
    ensures Add2(0, Head2(ch), Tail0(ch)) - Offset(1) == ch
  {
  }

  lemma Unit3RoundTrip(ch: WChar)
    requires 0x800 <= ch < 0x1_0000
    ensures IsShort3(Head3(ch), Tail6(ch), Tail0(ch))
    ensures Add3(0, Head3(ch), Tail6(ch), Tail0(ch)) - Offset(2) == ch
  {
    DigitsMakeTheNumber(ch);
  }

  lemma Unit4RoundTrip(ch: WChar)
    requires 0x1_0000 <= ch < 0x11_0000
    ensures IsShort4(Head4(ch), Tail12(ch), Tail6(ch), Tail0(ch))
    ensures Add4(0, Head4(ch), Tail12(ch), Tail6(ch), Tail0(ch)) - Offset(3) == ch
  {
    DigitsMakeTheNumber(ch);
  }

  /** The bytes of a character are in the shortest form, and make the character again. */
  ghost predicate Survives(ch: WChar) {
    var e := EncodeUnit(ch);
    IsShortAt(e, 0) && |e| == Stride(e[0]) && UnitAt(e, 0) == ch
  }

  lemma UnitAt4(e: Bytes, a: Byte, b: Byte, c: Byte, d: Byte)
    requires e == [a, b, c, d] && IsShort4(a, b, c, d)
    ensures Stride(a) == 4 && IsShortAt(e, 0) && UnitAt(e, 0) == Add4(0, a, b, c, d) - Offset(3)
  {
  }

  lemma UnitAt3(e: Bytes, a: Byte, b: Byte, c: Byte)
    requires e == [a, b, c] && IsShort3(a, b, c)
    ensures Stride(a) == 3 && IsShortAt(e, 0) && UnitAt(e, 0) == Add3(0, a, b, c) - Offset(2)
  {
  }

  lemma Survives12(ch: WChar)
    requires 0 < ch < 0x800
    ensures Survives(ch)
  {
    if ch < 0x80 {
      assert 0 < Low8(ch) < 0x80 && Add1(0, Low8(ch)) - Offset(0) == ch;
    } else {
      Unit2RoundTrip(ch);
      assert EncodeUnit(ch) == [Head2(ch), Tail0(ch)];
    }
  }

  /** A code point survives encoding and decoding, and is encoded in the shortest form. */
  lemma UnitRoundTrip(ch: WChar)
    requires IsCodePoint(ch)
    ensures Survives(ch)
  {
    if ch < 0x800 {
      Survives12(ch);
    } else if ch < 0x1_0000 {
      Unit3RoundTrip(ch);
      UnitAt3(EncodeUnit(ch), Head3(ch), Tail6(ch), Tail0(ch));
    } else {
      Unit4RoundTrip(ch);
      UnitAt4(EncodeUnit(ch), Head4(ch), Tail12(ch), Tail6(ch), Tail0(ch));
    }
  }

  /** What is read at a position depends on the bytes from there on only. */
  lemma ReadsAhead(s: Bytes, i: nat, e: Bytes)
    requires IsShortAt(e, 0) && i + |e| <= |s| && s[i..i + |e|] == e
    ensures IsShortAt(s, i) && Stride(s[i]) == Stride(e[0]) && UnitAt(s, i) == UnitAt(e, 0)
  {
    assert forall k | 0 <= k < |e| :: s[i + k] == e[k];
  }

  /** Decoding in front of a position that decodes already. */
  lemma DecodeBefore(s: Bytes, i: nat, e: Bytes)
    requires IsShortAt(e, 0) && |e| == Stride(e[0])
    requires i + |e| <= |s| && s[i..i + |e|] == e && Lands(s, i + |e|)
    ensures Lands(s, i) && Decode(s, i) == [UnitAt(e, 0)] + Decode(s, i + |e|)
  {
    ReadsAhead(s, i, e);
  }

  /** At idx stand the bytes t, and behind them a NUL. */
  predicate StandsAt(s: Bytes, idx: nat, t: Bytes) {
    idx + |t| < |s| && s[idx..idx + |t|] == t && s[idx + |t|] == 0
  }

  lemma StandsSplit(s: Bytes, idx: nat, a: Bytes, b: Bytes)
    requires StandsAt(s, idx, a + b)
    ensures s[idx..idx + |a|] == a && StandsAt(s, idx + |a|, b)
  {
    assert a == (a + b)[..|a|] && b == (a + b)[|a|..];
  }

  /** Decoding what was encoded, wherever it stands. */
  lemma {:induction false} DecodeOfEncode(s: Bytes, idx: nat, w: Wide, i: nat)
    requires i <= |w| && forall k | i <= k < |w| :: IsCodePoint(w[k])
    requires StandsAt(s, idx, Encode(w, i))
    ensures Lands(s, idx) && Decode(s, idx) == w[i..]
    decreases |w| - i
  {
    hide EncodeUnit;
    hide UnitAt;
    if i < |w| {
      var e := EncodeUnit(w[i]);
      UnitRoundTrip(w[i]);
      StandsSplit(s, idx, e, Encode(w, i + 1));
      DecodeOfEncode(s, idx + |e|, w, i + 1);
      DecodeBefore(s, idx, e);
    }
  }

  /** For all code points but NUL: decode(encode(w)) is w and one trailing NUL. */
  lemma WideRoundTrip(w: Wide)
    requires forall k | 0 <= k < |w| :: IsCodePoint(w[k])
    ensures var s := Encode(w, 0) + [0]; Lands(s, 0) && Decode(s, 0) + [0] == w + [0]
  {
    DecodeOfEncode(Encode(w, 0) + [0], 0, w, 0);
    assert w[0..] == w;
  }

  // The encoder gives a sequence back exactly when it is in the shortest form.

  /** The digits of a number in base 64. */
  lemma Digits64(x: nat, y: nat, z: nat, w: nat)
    requires y < 64 && z < 64 && w < 64
    ensures var u := ((x * 64 + y) * 64 + z) * 64 + w;
            u % 64 == w && u / 64 % 64 == z && u / 4096 % 64 == y && u / 4096 == x * 64 + y && u / 262144 == x
  {
    var u := ((x * 64 + y) * 64 + z) * 64 + w;
    assert u / 64 == (x * 64 + y) * 64 + z;
    assert u / 4096 == x * 64 + y;
  }

  lemma EncodesBack1(a: Byte)
    requires 0 < a < 0x80
    ensures var u := Add1(0, a) - Offset(0); IsCodePoint(u) && EncodeUnit(u) == [a]
  {
  }

  lemma EncodesBack2(a: Byte, b: Byte)
    requires IsShort2(a, b)
    ensures var u := Add2(0, a, b) - Offset(1); IsCodePoint(u) && EncodeUnit(u) == [a, b]
  {
  }

  lemma EncodesBack3(a: Byte, b: Byte, c: Byte)
    requires IsShort3(a, b, c)
    ensures var u := Add3(0, a, b, c) - Offset(2); IsCodePoint(u) && EncodeUnit(u) == [a, b, c]
  {
    var y, z, w := a - 0xE0, b - 0x80, c - 0x80;
    var u := Add3(0, a, b, c) - Offset(2);
    Digits64(0, y, z, w);
    assert u == (y * 64 + z) * 64 + w;
  }

  lemma EncodesBack4(a: Byte, b: Byte, c: Byte, d: Byte)
    requires IsShort4(a, b, c, d)
    ensures var u := Add4(0, a, b, c, d) - Offset(3); IsCodePoint(u) && EncodeUnit(u) == [a, b, c, d]
  {
    var x, y, z, w := a - 0xF0, b - 0x80, c - 0x80, d - 0x80;
    var u := Add4(0, a, b, c, d) - Offset(3);
    Digits64(x, y, z, w);
    assert u == ((x * 64 + y) * 64 + z) * 64 + w;
  }

  /** The sequence at i survives decoding and encoding. */
  ghost predicate Returns(s: Bytes, i: nat)
    requires i < |s| && 1 <= Stride(s[i]) <= |s| - i
  {
    var u := UnitAt(s, i);
    IsCodePoint(u) && EncodeUnit(u) == s[i..i + Stride(s[i])]
  }

  lemma ShortReturns(s: Bytes, i: nat)
    requires IsShortAt(s, i)
    ensures Returns(s, i)
  {
    var n := Stride(s[i]);
    if n == 1 {
      assert s[i..i + n] == [s[i]];
      EncodesBack1(s[i]);
    } else if n == 2 {
      assert s[i..i + n] == [s[i], s[i + 1]];
      EncodesBack2(s[i], s[i + 1]);
    } else if n == 3 {
      assert s[i..i + n] == [s[i], s[i + 1], s[i + 2]];
      EncodesBack3(s[i], s[i + 1], s[i + 2]);
    } else {
      assert s[i..i + n] == [s[i], s[i + 1], s[i + 2], s[i + 3]];
      EncodesBack4(s[i], s[i + 1], s[i + 2], s[i + 3]);
    }
  }

  /** A sequence survives decoding and encoding exactly when it is in its shortest form. */
  lemma SequenceRoundTrip(s: Bytes, i: nat)
    requires i < |s| && 1 <= Stride(s[i]) <= |s| - i
    ensures Returns(s, i) <==> IsShortAt(s, i)
  {
    if IsShortAt(s, i) {
      ShortReturns(s, i);
    }
    if Returns(s, i) {
      var e := EncodeUnit(UnitAt(s, i));
      UnitRoundTrip(UnitAt(s, i));
      ReadsAhead(s, i, e);
    }
  }

  /** From idx to the end, nothing but shortest forms, and no NUL. */
  predicate ShortestForm(s: Bytes, idx: nat)
    decreases |s| - idx
  {
    idx == |s| || (IsShortAt(s, idx) && ShortestForm(s, idx + Stride(s[idx])))
  }

  /** On every string in the shortest form, the loop ends with the index exactly on the size. */
  lemma {:induction false} ShortestFormLandsOnTheSize(s: Bytes, idx: nat) returns (turns: nat)
    requires ShortestForm(s, idx)
    ensures Visit(s, idx, turns) == |s|
    decreases |s| - idx
  {
    if idx == |s| {
      turns := 0;
    } else {
      turns := ShortestFormLandsOnTheSize(s, idx + Stride(s[idx]));
      turns := turns + 1;
    }
  }

  lemma {:induction false} EncodeShifted(a: Wide, w: Wide, i: nat)
    requires i <= |w|
    ensures Encode(a + w, |a| + i) == Encode(w, i)
    decreases |w| - i
  {
    if i < |w| {
      EncodeShifted(a, w, i + 1);
    }
  }

  lemma EncodeBefore(u: WChar, w: Wide)
    requires u != 0
    ensures Encode([u] + w, 0) == EncodeUnit(u) + Encode(w, 0)
  {
    EncodeShifted([u], w, 0);
  }

  lemma {:induction false} EncodeOfDecode(s: Bytes, idx: nat)
    requires ShortestForm(s, idx)
    ensures Lands(s, idx) && Encode(Decode(s, idx), 0) == s[idx..]
    decreases |s| - idx
  {
    hide EncodeUnit;
    hide UnitAt;
    if idx < |s| {
      var next := idx + Stride(s[idx]);
      EncodeOfDecode(s, next);
      SequenceRoundTrip(s, idx);
      EncodeBefore(UnitAt(s, idx), Decode(s, next));
      assert Decode(s, idx) == [UnitAt(s, idx)] + Decode(s, next);
      assert s[idx..] == s[idx..next] + s[next..];
    }
  }

  lemma {:induction false} TrailingNulIsSilent(w: Wide, i: nat)
    requires i <= |w|
    ensures Encode(w + [0], i) == Encode(w, i)
    decreases |w| - i
  {
    if i < |w| {
      TrailingNulIsSilent(w, i + 1);
    }
  }

  /** For all byte strings in the shortest form: encode(decode(s)) is s and one
      trailing NUL, although decoding appends a NUL of its own. */
  lemma ByteRoundTrip(s: Bytes)
    requires ShortestForm(s, 0)
    ensures Lands(s, 0) && Encode(Decode(s, 0) + [0], 0) + [0] == s + [0]
  {
    EncodeOfDecode(s, 0);
    assert s[0..] == s;
    TrailingNulIsSilent(Decode(s, 0), 0);
  }
}
