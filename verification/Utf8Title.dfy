/** The UTF-8 codec and the search titles of StringUtils.cpp: sequences of section 3 of RFC 3629
    for 21-bit numbers, read leniently, and Vietnamese letters folded to capitals of the alphabet. */
module Utf8Title {
  import opened Bytes

  /** What four bytes can hold. */
  type CodePoint = x: nat | x < 0x20_0000

  // ---- writing

  /** UTF8_CharEncodedLength; where wchar_t has 2 bytes it never answers 4. */
  function CharEncodedLength(c: nat, wcharBytes: nat): nat
  {
    if c < 0x80 then 1 else if c < 0x800 then 2 else if wcharBytes == 2 || c < 0x1_0000 then 3 else 4
  }

  /** The bytes UTF8_EncodeChar writes. */
  function Encode(c: CodePoint): (s: Str)
    ensures 1 <= |s| <= 4
  {
    if c < 0x80 then [c]
    else if c < 0x800 then [0xC0 + c / 0x40, 0x80 + c % 0x40]
    else if c < 0x1_0000 then [0xE0 + c / 0x1000, 0x80 + c / 0x40 % 0x40, 0x80 + c % 0x40]
    else [0xF0 + c / 0x4_0000 % 8, 0x80 + c / 0x1000 % 0x40, 0x80 + c / 0x40 % 0x40, 0x80 + c % 0x40]
  }

  /** The announced length is the written one exactly when wchar_t is not short or the character is not long. */
  lemma EncodedLengthIff(c: CodePoint, wcharBytes: nat)
    ensures CharEncodedLength(c, wcharBytes) == |Encode(c)| <==> wcharBytes != 2 || c < 0x1_0000
  {}

  // ---- reading

  /** The byte at i of a C string; its NUL from the end on. */
  function ByteAt(s: Str, i: nat): Byte { if i < |s| then s[i] else 0 }

  predicate Follows(b: Byte) { 0x80 <= b < 0xC0 }

  /** UTF8_DecodeCharLength */
  function CharLength(s: Str, pos: nat): (n: nat)
    ensures 1 <= n <= 4
  {
    var b := ByteAt(s, pos);
    if b < 0x80 then 1
    else if 0xC0 <= b < 0xE0 && Follows(ByteAt(s, pos + 1)) then 2
    else if 0xE0 <= b < 0xF0 && Follows(ByteAt(s, pos + 1)) && Follows(ByteAt(s, pos + 2)) then 3
    else if 0xF0 <= b < 0xF8 && Follows(ByteAt(s, pos + 1)) && Follows(ByteAt(s, pos + 2))
      && Follows(ByteAt(s, pos + 3)) then 4
    else 1
  }

  /** What the bytes of one sequence mean. */
  function Meaning(n: nat, b0: nat, b1: nat, b2: nat, b3: nat): nat
  {
    if n == 1 then if b0 < 0x80 then b0 else 0x3F
    else if n == 2 then b0 % 0x20 * 0x40 + b1 % 0x40
    else if n == 3 then b0 % 0x10 * 0x1000 + b1 % 0x40 * 0x40 + b2 % 0x40
    else b0 % 8 * 0x4_0000 + b1 % 0x40 * 0x1000 + b2 % 0x40 * 0x40 + b3 % 0x40
  }

  /** The number UTF8_DecodeChar reads at pos: '?' where no sequence starts. */
  function CharAt(s: Str, pos: nat): CodePoint
  {
    Meaning(CharLength(s, pos), ByteAt(s, pos), ByteAt(s, pos + 1), ByteAt(s, pos + 2), ByteAt(s, pos + 3))
  }

  /** A sequence never reaches past the end of a string without NUL. */
  lemma CharLengthInside(s: Str, pos: nat)
    requires pos < |s|
    ensures pos + CharLength(s, pos) <= |s|
  {}

  lemma Two(c: CodePoint)
    requires 0x80 <= c < 0x800
    ensures Meaning(2, 0xC0 + c / 0x40, 0x80 + c % 0x40, 0, 0) == c
  {}

  lemma Three(c: CodePoint)
    requires 0x800 <= c < 0x1_0000
    ensures Meaning(3, 0xE0 + c / 0x1000, 0x80 + c / 0x40 % 0x40, 0x80 + c % 0x40, 0) == c
  {
    Quotients(c);
    LowSix(c);
    LowSix(c / 0x40);
  }

  lemma Four(c: CodePoint)
    requires 0x1_0000 <= c
    ensures c / 0x4_0000 < 8
    ensures Meaning(4, 0xF0 + c / 0x4_0000 % 8, 0x80 + c / 0x1000 % 0x40, 0x80 + c / 0x40 % 0x40, 0x80 + c % 0x40) == c
  {
    Quotients(c);
    LowSix(c);
    LowSix(c / 0x40);
    LowSix(c / 0x1000);
    assert (0xF0 + c / 0x4_0000) % 8 == c / 0x4_0000;
  }

  lemma Quotients(c: nat)
    ensures c / 0x1000 == c / 0x40 / 0x40 && c / 0x4_0000 == c / 0x1000 / 0x40
  {}

  lemma LowSix(n: nat)
    ensures n == 0x40 * (n / 0x40) + n % 0x40 && (0x80 + n % 0x40) % 0x40 == n % 0x40
  {}

  /** Meaning looks at the first n bytes only. */
  lemma MeaningOf(n: nat, b0: nat, b1: nat, b2: nat, b3: nat)
    ensures n == 1 ==> Meaning(n, b0, b1, b2, b3) == Meaning(1, b0, 0, 0, 0)
    ensures n == 2 ==> Meaning(n, b0, b1, b2, b3) == Meaning(2, b0, b1, 0, 0)
    ensures n == 3 ==> Meaning(n, b0, b1, b2, b3) == Meaning(3, b0, b1, b2, 0)
  {}

  /** A written character is read back, wherever it stands. */
  lemma CharBack(s: Str, pos: nat, c: CodePoint)
    requires At(s, pos, Encode(c))
    ensures CharLength(s, pos) == |Encode(c)| && CharAt(s, pos) == c
  {
    hide Meaning;
    var e := Encode(c);
    assert forall i | pos <= i < pos + |e| :: s[i] == e[i - pos];
    assert s[pos] == e[0];
    MeaningOf(CharLength(s, pos), ByteAt(s, pos), ByteAt(s, pos + 1), ByteAt(s, pos + 2), ByteAt(s, pos + 3));
    if c < 0x80 {
      One(c);
    } else if c < 0x800 {
      assert s[pos + 1] == e[1];
      Two(c);
    } else if c < 0x1_0000 {
      assert s[pos + 1] == e[1] && s[pos + 2] == e[2];
      Three(c);
    } else {
      assert s[pos + 1] == e[1] && s[pos + 2] == e[2] && s[pos + 3] == e[3];
      Four(c);
    }
  }

  lemma One(c: CodePoint)
    requires c < 0x80
    ensures Meaning(1, c, 0, 0, 0) == c
  {}

  /** At pos stands a sequence of n bytes as section 3 of RFC 3629 draws it, of any value. */
  predicate Sequence(s: Str, pos: nat, n: nat)
  {
    && pos + n <= |s|
    && (n == 1 ==> s[pos] < 0x80) && (n == 2 ==> 0xC0 <= s[pos] <= 0xDF) && (n == 3 ==> 0xE0 <= s[pos] <= 0xEF)
    && (n == 4 ==> 0xF0 <= s[pos] <= 0xF7)
    && forall k | pos < k < pos + n :: 0x80 <= s[k] <= 0xBF
  }

  /** Its value: the payload of its bytes, six bits a byte behind the first. */
  function SequenceValue(s: Str, pos: nat, n: nat): nat
    requires 1 <= n <= 4 && Sequence(s, pos, n)
  {
    if n == 1 then s[pos]
    else if n == 2 then Payload(s[pos] - 0xC0, s, pos + 1, 1)
    else if n == 3 then Payload(s[pos] - 0xE0, s, pos + 1, 2)
    else Payload(s[pos] - 0xF0, s, pos + 1, 3)
  }

  /** high, and behind it the six bits of each of the next n bytes. */
  function Payload(high: nat, s: Str, pos: nat, n: nat): nat
    requires pos + n <= |s| && forall k | pos <= k < pos + n :: 0x80 <= s[k] <= 0xBF
    decreases n
  {
    if n == 0 then high else Payload(0x40 * high + (s[pos] - 0x80), s, pos + 1, n - 1)
  }

  lemma OneBehind(high: nat, s: Str, pos: nat)
    requires pos + 1 <= |s| && forall k | pos <= k < pos + 1 :: 0x80 <= s[k] <= 0xBF
    ensures Payload(high, s, pos, 1) == 0x40 * high + s[pos] as int % 0x40
  {
    assert s[pos] as int % 0x40 == s[pos] - 0x80;
    assert Payload(0x40 * high + (s[pos] - 0x80), s, pos + 1, 0) == 0x40 * high + (s[pos] - 0x80);
  }

  lemma TwoBehind(high: nat, s: Str, pos: nat)
    requires pos + 2 <= |s| && forall k | pos <= k < pos + 2 :: 0x80 <= s[k] <= 0xBF
    ensures Payload(high, s, pos, 2) == 0x1000 * high + 0x40 * (s[pos] as int % 0x40) + s[pos + 1] as int % 0x40
  {
    assert s[pos] as int % 0x40 == s[pos] - 0x80;
    OneBehind(0x40 * high + (s[pos] - 0x80), s, pos + 1);
  }

  lemma ThreeBehind(high: nat, s: Str, pos: nat)
    requires pos + 3 <= |s| && forall k | pos <= k < pos + 3 :: 0x80 <= s[k] <= 0xBF
    ensures Payload(high, s, pos, 3)
      == 0x4_0000 * high + 0x1000 * (s[pos] as int % 0x40) + 0x40 * (s[pos + 1] as int % 0x40)
         + s[pos + 2] as int % 0x40
  {
    assert s[pos] as int % 0x40 == s[pos] - 0x80;
    TwoBehind(0x40 * high + (s[pos] - 0x80), s, pos + 1);
  }

  /** Read is the sequence that stands there; where none does, a question mark of one byte. */
  lemma CharReads(s: Str, pos: nat, n: nat)
    requires pos < |s| && 1 <= n <= 4 && Sequence(s, pos, n)
    ensures CharLength(s, pos) == n && CharAt(s, pos) == SequenceValue(s, pos, n)
  {
    hide Payload, Meaning;
    assert forall k | pos < k < pos + n :: Follows(ByteAt(s, k));
    MeaningIs(s, pos, n);
    assert CharLength(s, pos) == n;
  }

  lemma MeaningIs(s: Str, pos: nat, n: nat)
    requires pos < |s| && 1 <= n <= 4 && Sequence(s, pos, n)
    ensures Meaning(n, ByteAt(s, pos), ByteAt(s, pos + 1), ByteAt(s, pos + 2), ByteAt(s, pos + 3))
      == SequenceValue(s, pos, n)
  {
    hide Payload;
    if n == 2 {
      OneBehind(s[pos] - 0xC0, s, pos + 1);
    } else if n == 3 {
      TwoBehind(s[pos] - 0xE0, s, pos + 1);
    } else if n == 4 {
      FourMean(s, pos);
    }
  }

  lemma FourMean(s: Str, pos: nat)
    requires pos < |s| && Sequence(s, pos, 4)
    ensures Meaning(4, s[pos], s[pos + 1], s[pos + 2], s[pos + 3]) == SequenceValue(s, pos, 4)
  {
    hide Payload;
    assert s[pos] as int % 8 == s[pos] - 0xF0;
    ThreeBehind(s[pos] - 0xF0, s, pos + 1);
  }

  /** Written is the shortest sequence of the character's value. */
  lemma EncodedSequence(c: CodePoint)
    ensures
      var e := Encode(c);
      && Sequence(e, 0, |e|) && SequenceValue(e, 0, |e|) == c
      && (|e| > 1 <==> c >= 0x80) && (|e| > 2 <==> c >= 0x800) && (|e| > 3 <==> c >= 0x1_0000)
  {
    hide Payload, Meaning, CharLength, SequenceValue;
    var e := Encode(c);
    CharBack(e, 0, c);
    EncodedShape(c);
    CharReads(e, 0, |e|);
  }

  lemma EncodedShape(c: CodePoint)
    ensures Sequence(Encode(c), 0, |Encode(c)|)
  {}

  lemma NoSequence(s: Str, pos: nat)
    requires pos < |s| && !Sequence(s, pos, 1) && !Sequence(s, pos, 2) && !Sequence(s, pos, 3) && !Sequence(s, pos, 4)
    ensures CharLength(s, pos) == 1 && CharAt(s, pos) == 0x3F
  {}

  // ---- whole strings

  function EncodeAll(cs: seq<CodePoint>, n: nat): Str
    requires n <= |cs|
  {
    if n == 0 then [] else EncodeAll(cs, n - 1) + Encode(cs[n - 1])
  }

  /** The numbers read from pos to the end or to a NUL. */
  function DecodeFrom(s: Str, pos: nat): seq<CodePoint>
    decreases |s| - pos
  {
    if pos >= |s| || s[pos] == 0 then []
    else [CharAt(s, pos)] + DecodeFrom(s, pos + CharLength(s, pos))
  }

  lemma {:induction false} EncodePrefix(cs: seq<CodePoint>, i: nat, n: nat)
    requires i <= n <= |cs|
    ensures EncodeAll(cs, i) <= EncodeAll(cs, n)
  {
    hide Encode;
    if i < n { EncodePrefix(cs, i, n - 1); }
  }

  lemma EncodedAt(cs: seq<CodePoint>, i: nat)
    requires i < |cs|
    ensures At(EncodeAll(cs, |cs|), |EncodeAll(cs, i)|, Encode(cs[i]))
    ensures |EncodeAll(cs, i + 1)| == |EncodeAll(cs, i)| + |Encode(cs[i])| <= |EncodeAll(cs, |cs|)|
  {
    hide Encode;
    EncodePrefix(cs, i + 1, |cs|);
    var all, part, from := EncodeAll(cs, |cs|), EncodeAll(cs, i + 1), |EncodeAll(cs, i)|;
    forall k | from <= k < from + |Encode(cs[i])|
      ensures all[k] == Encode(cs[i])[k - from]
    {
      assert all[k] == part[k];
    }
  }

  lemma FirstByte(c: CodePoint)
    ensures Encode(c)[0] == 0 <==> c == 0
  {}

  /** The characters before the first zero. */
  function BeforeZero(cs: seq<CodePoint>, i: nat): seq<CodePoint>
    requires i <= |cs|
    decreases |cs| - i
  {
    if i == |cs| || cs[i] == 0 then [] else [cs[i]] + BeforeZero(cs, i + 1)
  }

  /** Reading what was written gives the characters up to the first zero. */
  lemma {:induction false} DecodeEncoded(cs: seq<CodePoint>, i: nat)
    requires i <= |cs|
    ensures |EncodeAll(cs, i)| <= |EncodeAll(cs, |cs|)|
    ensures DecodeFrom(EncodeAll(cs, |cs|), |EncodeAll(cs, i)|) == BeforeZero(cs, i)
    decreases |cs| - i
  {
    hide Encode, EncodeAll, CharAt, CharLength;
    if i < |cs| {
      DecodeEncoded(cs, i + 1);
      EncodedAt(cs, i);
      FirstByte(cs[i]);
      var s, pos := EncodeAll(cs, |cs|), |EncodeAll(cs, i)|;
      assert s[pos] == Encode(cs[i])[pos - pos];
      CharBack(s, pos, cs[i]);
    }
  }

  ghost predicate NonZero(cs: seq<CodePoint>) { forall i | 0 <= i < |cs| :: cs[i] != 0 }

  lemma {:induction false} NothingCut(cs: seq<CodePoint>, i: nat)
    requires i <= |cs|
    ensures NonZero(cs) ==> BeforeZero(cs, i) == cs[i..]
    ensures |BeforeZero(cs, i)| <= |cs| - i
    ensures |BeforeZero(cs, i)| == |cs| - i ==> forall k | i <= k < |cs| :: cs[k] != 0
    decreases |cs| - i
  {
    if i < |cs| { NothingCut(cs, i + 1); }
  }

  /** Any sequence of characters other than zero survives encoding and decoding. */
  lemma RoundTrip(cs: seq<CodePoint>)
    requires NonZero(cs)
    ensures DecodeFrom(EncodeAll(cs, |cs|), 0) == cs
  {
    DecodeEncoded(cs, 0);
    NothingCut(cs, 0);
  }

  // ---- titles

  const A_FORMS: set<nat> := {
    0x0041, 0x00C1, 0x00C0, 0x1EA2, 0x00C3, 0x1EA0, 0x0102, 0x1EAE, 0x1EB0, 0x1EB2, 0x1EB4, 0x1EB6, 0x00C2, 0x1EA4,
    0x1EA6, 0x1EA8, 0x1EAA, 0x1EAC, 0x0061, 0x00E1, 0x00E0, 0x1EA3, 0x00E3, 0x1EA1, 0x0103, 0x1EAF, 0x1EB1, 0x1EB3,
    0x1EB5, 0x1EB7, 0x00E2, 0x1EA5, 0x1EA7, 0x1EA9, 0x1EAB, 0x1EAD}
  const D_FORMS: set<nat> := {0x0044, 0x0110, 0x0064, 0x0111}
  const E_FORMS: set<nat> := {
    0x0045, 0x00C9, 0x00C8, 0x1EBA, 0x1EBC, 0x1EB8, 0x00CA, 0x1EBE, 0x1EC0, 0x1EC2, 0x1EC4, 0x1EC6, 0x0065, 0x00E9,
    0x00E8, 0x1EBB, 0x1EBD, 0x1EB9, 0x00EA, 0x1EBF, 0x1EC1, 0x1EC3, 0x1EC5, 0x1EC7}
  const I_FORMS: set<nat> := {
    0x0049, 0x00CD, 0x00CC, 0x1EC8, 0x0128, 0x1ECA, 0x0069, 0x00ED, 0x00EC, 0x1EC9, 0x0129, 0x1ECB}
  const O_FORMS: set<nat> := {
    0x004F, 0x00D3, 0x00D2, 0x1ECE, 0x00D5, 0x1ECC, 0x00D4, 0x1ED0, 0x1ED2, 0x1ED4, 0x1ED6, 0x1ED8, 0x01A0, 0x1EDA,
    0x1EDC, 0x1EDE, 0x1EE0, 0x1EE2, 0x006F, 0x00F3, 0x00F2, 0x1ECF, 0x00F5, 0x1ECD, 0x00F4, 0x1ED1, 0x1ED3, 0x1ED5,
    0x1ED7, 0x1ED9, 0x01A1, 0x1EDB, 0x1EDD, 0x1EDF, 0x1EE1, 0x1EE3}
  const U_FORMS: set<nat> := {
    0x0055, 0x00DA, 0x00D9, 0x1EE6, 0x0168, 0x1EE4, 0x01AF, 0x1EE8, 0x1EEA, 0x1EEC, 0x1EEE, 0x1EF0, 0x0075, 0x00FA,
    0x00F9, 0x1EE7, 0x0169, 0x1EE5, 0x01B0, 0x1EE9, 0x1EEB, 0x1EED, 0x1EEF, 0x1EF1}
  const Y_FORMS: set<nat> := {
    0x0059, 0x00DD, 0x1EF2, 0x1EF6, 0x1EF8, 0x1EF4, 0x0079, 0x00FD, 0x1EF3, 0x1EF7, 0x1EF9, 0x1EF5}

  /** toupper of the C locale. */
  function ToUpper(c: CodePoint): CodePoint { if 0x61 <= c <= 0x7A then c - 0x20 else c }

  predicate IsA(c: CodePoint) { c in A_FORMS }
  predicate IsD(c: CodePoint) { c in D_FORMS }
  predicate IsE(c: CodePoint) { c in E_FORMS }
  predicate IsI(c: CodePoint) { c in I_FORMS }
  predicate IsO(c: CodePoint) { c in O_FORMS }
  predicate IsU(c: CodePoint) { c in U_FORMS }
  predicate IsY(c: CodePoint) { c in Y_FORMS }

  /** processVietnameseRawChar */
  function Fold(c: CodePoint): CodePoint
  {
    if IsA(c) then 0x41
    else if IsD(c) then 0x44
    else if IsE(c) then 0x45
    else if IsI(c) then 0x49
    else if IsO(c) then 0x4F
    else if IsU(c) then 0x55
    else if IsY(c) then 0x59
    else ToUpper(c)
  }

  lemma AsciiA(c: CodePoint)
    ensures c < 0x80 ==> (IsA(c) <==> c == 0x41 || c == 0x61)
  {}

  lemma AsciiD(c: CodePoint)
    ensures c < 0x80 ==> (IsD(c) <==> c == 0x44 || c == 0x64)
  {}

  lemma AsciiE(c: CodePoint)
    ensures c < 0x80 ==> (IsE(c) <==> c == 0x45 || c == 0x65)
  {}

  lemma AsciiI(c: CodePoint)
    ensures c < 0x80 ==> (IsI(c) <==> c == 0x49 || c == 0x69)
  {}

  lemma AsciiO(c: CodePoint)
    ensures c < 0x80 ==> (IsO(c) <==> c == 0x4F || c == 0x6F)
  {}

  lemma AsciiU(c: CodePoint)
    ensures c < 0x80 ==> (IsU(c) <==> c == 0x55 || c == 0x75)
  {}

  lemma AsciiY(c: CodePoint)
    ensures c < 0x80 ==> (IsY(c) <==> c == 0x59 || c == 0x79)
  {}

  /** In ASCII, folding is making capital. */
  lemma FoldAscii(c: CodePoint)
    ensures c < 0x80 ==> Fold(c) == ToUpper(c)
  {
    hide IsA, IsD, IsE, IsI, IsO, IsU, IsY;
    AsciiA(c);
    AsciiD(c);
    AsciiE(c);
    AsciiI(c);
    AsciiO(c);
    AsciiU(c);
    AsciiY(c);
  }

  /** Folding is done once for all, and makes no zero. */
  lemma FoldTwice(c: CodePoint)
    ensures Fold(Fold(c)) == Fold(c) && (Fold(c) == 0 <==> c == 0)
  {
    hide IsA, IsD, IsE, IsI, IsO, IsU, IsY;
    FoldAscii(c);
    FoldAscii(Fold(c));
  }

  // ---- the same by the blocks of Unicode

  predicate Within(c: nat, low: nat, high: nat) { low <= c <= high }

  predicate ABlocks(c: CodePoint)
  {
    || c == 0x41 || c == 0x61 || Within(c, 0xC0, 0xC3) || Within(c, 0xE0, 0xE3)
    || Within(c, 0x102, 0x103) || Within(c, 0x1EA0, 0x1EB7)
  }

  predicate DBlocks(c: CodePoint)
  {
    || c == 0x44 || c == 0x64
    || Within(c, 0x110, 0x111)
  }

  predicate EBlocks(c: CodePoint)
  {
    || c == 0x45 || c == 0x65 || Within(c, 0xC8, 0xCA) || Within(c, 0xE8, 0xEA)
    || Within(c, 0x1EB8, 0x1EC7)
  }

  predicate IBlocks(c: CodePoint)
  {
    || c == 0x49 || c == 0x69 || Within(c, 0xCC, 0xCD) || Within(c, 0xEC, 0xED)
    || Within(c, 0x128, 0x129) || Within(c, 0x1EC8, 0x1ECB)
  }

  predicate OBlocks(c: CodePoint)
  {
    || c == 0x4F || c == 0x6F || Within(c, 0xD2, 0xD5) || Within(c, 0xF2, 0xF5)
    || Within(c, 0x1A0, 0x1A1) || Within(c, 0x1ECC, 0x1EE3)
  }

  predicate UBlocks(c: CodePoint)
  {
    || c == 0x55 || c == 0x75 || Within(c, 0xD9, 0xDA) || Within(c, 0xF9, 0xFA)
    || Within(c, 0x168, 0x169) || Within(c, 0x1AF, 0x1B0) || Within(c, 0x1EE4, 0x1EF1)
  }

  predicate YBlocks(c: CodePoint)
  {
    || c == 0x59 || c == 0x79 || c == 0xDD || c == 0xFD
    || Within(c, 0x1EF2, 0x1EF9)
  }

  /** A capital or small letter of Latin-1 or of Latin Extended-A and -B with a mark, or of the block from 1EA0 to
      1EF9, where the letters stand in alphabetical order, becomes its base letter. The rest of ASCII becomes
      capital, and every other character stays. */
  lemma FoldBlocks(c: CodePoint)
    ensures ABlocks(c) ==> Fold(c) == 0x41
    ensures DBlocks(c) ==> Fold(c) == 0x44
    ensures EBlocks(c) ==> Fold(c) == 0x45
    ensures IBlocks(c) ==> Fold(c) == 0x49
    ensures OBlocks(c) ==> Fold(c) == 0x4F
    ensures UBlocks(c) ==> Fold(c) == 0x55
    ensures YBlocks(c) ==> Fold(c) == 0x59
    ensures
      ABlocks(c) || DBlocks(c) || EBlocks(c) || IBlocks(c) || OBlocks(c) || UBlocks(c) || YBlocks(c)
      || Fold(c) == if Within(c, 0x61, 0x7A) then c - 0x20 else c
  {
    hide IsA, IsD, IsE, IsI, IsO, IsU, IsY;
    FormsInBlocks(c);
  }

  lemma FormsInBlocks(c: CodePoint)
    ensures (IsA(c) <==> ABlocks(c)) && (IsD(c) <==> DBlocks(c)) && (IsE(c) <==> EBlocks(c))
    ensures (IsI(c) <==> IBlocks(c)) && (IsO(c) <==> OBlocks(c)) && (IsU(c) <==> UBlocks(c))
    ensures IsY(c) <==> YBlocks(c)
  {
    hide IsA, IsD, IsE, IsI, IsO, IsU, IsY, ABlocks, DBlocks, EBlocks, IBlocks, OBlocks, UBlocks, YBlocks;
    AForms(c);
    DForms(c);
    EForms(c);
    IForms(c);
    OForms(c);
    UForms(c);
    YForms(c);
  }

  lemma AForms(c: CodePoint)
    ensures IsA(c) <==> ABlocks(c)
  {}

  lemma DForms(c: CodePoint)
    ensures IsD(c) <==> DBlocks(c)
  {}

  lemma EForms(c: CodePoint)
    ensures IsE(c) <==> EBlocks(c)
  {}

  lemma IForms(c: CodePoint)
    ensures IsI(c) <==> IBlocks(c)
  {}

  lemma OForms(c: CodePoint)
    ensures IsO(c) <==> OBlocks(c)
  {}

  lemma UForms(c: CodePoint)
    ensures IsU(c) <==> UBlocks(c)
  {}

  lemma YForms(c: CodePoint)
    ensures IsY(c) <==> YBlocks(c)
  {}

  function FoldAll(cs: seq<CodePoint>): (r: seq<CodePoint>)
    ensures |r| == |cs|
  {
    seq(|cs|, i requires 0 <= i < |cs| => Fold(cs[i]))
  }

  /** The bytes getTitleRaw makes of a C string. */
  function Title(s: Str): Str
  {
    var cs := FoldAll(DecodeFrom(s, 0));
    EncodeAll(cs, |cs|)
  }

  lemma FoldAllTwice(cs: seq<CodePoint>)
    ensures FoldAll(FoldAll(cs)) == FoldAll(cs) && (NonZero(FoldAll(cs)) <==> NonZero(cs))
  {
    hide Fold;
    forall i | 0 <= i < |cs|
      ensures Fold(FoldAll(cs)[i]) == FoldAll(cs)[i] && (FoldAll(cs)[i] == 0 <==> cs[i] == 0)
    {
      FoldTwice(cs[i]);
    }
  }

  lemma {:induction false} EncodedShrinks(cs: seq<CodePoint>, n: nat)
    requires n < |cs|
    ensures |EncodeAll(cs[..n], n)| < |EncodeAll(cs, |cs|)|
  {
    hide Encode;
    EncodePrefix(cs, n, |cs|);
    EncodedAt(cs, n);
    SameEncoding(cs, cs[..n], n);
  }

  lemma {:induction false} SameEncoding(a: seq<CodePoint>, b: seq<CodePoint>, n: nat)
    requires n <= |a| && n <= |b| && a[..n] == b[..n]
    ensures EncodeAll(a, n) == EncodeAll(b, n)
  {
    hide Encode;
    if n > 0 {
      assert a[n - 1] == a[..n][n - 1] == b[..n][n - 1] == b[n - 1];
      assert a[..n - 1] == a[..n][..n - 1] == b[..n][..n - 1] == b[..n - 1];
      SameEncoding(a, b, n - 1);
    }
  }

  lemma {:induction false} BeforeZeroIsPrefix(cs: seq<CodePoint>, i: nat)
    requires i <= |cs|
    ensures BeforeZero(cs, i) <= cs[i..]
    decreases |cs| - i
  {
    if i < |cs| && cs[i] != 0 {
      BeforeZeroIsPrefix(cs, i + 1);
      assert cs[i..] == [cs[i]] + cs[i + 1..];
    }
  }

  /** A title of a title is itself exactly when the string, malformed or not, has no zero character
      in it: an overlong zero would be written as a NUL, and end the title there the next time. */
  lemma TitleTwiceIff(s: Str)
    ensures Title(Title(s)) == Title(s) <==> NonZero(DecodeFrom(s, 0))
  {
    hide Fold, EncodeAll, BeforeZero, DecodeFrom;
    var cs := FoldAll(DecodeFrom(s, 0));
    FoldAllTwice(DecodeFrom(s, 0));
    DecodeEncoded(cs, 0);
    NoneEncoded(cs);
    NothingCut(cs, 0);
    BeforeZeroIsPrefix(cs, 0);
    var kept := BeforeZero(cs, 0);
    assert cs[0..] == cs;
    assert DecodeFrom(Title(s), 0) == kept;
    if NonZero(cs) {
      assert kept == cs;
    } else {
      assert |kept| < |cs|;
      assert kept == cs[..|kept|];
      EncodedShrinks(cs, |kept|);
      FoldedPrefix(DecodeFrom(s, 0), kept);
    }
  }

  /** A title reads as the string it is made of, folded character by character, up to an overlong zero. */
  lemma TitleReads(s: Str)
    ensures
      var cs, t := DecodeFrom(s, 0), DecodeFrom(Title(s), 0);
      && |t| <= |cs| && (forall k | 0 <= k < |t| :: t[k] == Fold(cs[k]))
      && (|t| == |cs| || cs[|t|] == 0)
  {
    hide Fold, EncodeAll, DecodeFrom;
    var cs := DecodeFrom(s, 0);
    DecodeEncoded(FoldAll(cs), 0);
    NoneEncoded(FoldAll(cs));
    BeforeZeroIsPrefix(FoldAll(cs), 0);
    BeforeZeroStops(FoldAll(cs), 0);
    var t := BeforeZero(FoldAll(cs), 0);
    assert FoldAll(cs)[0..] == FoldAll(cs);
    if |t| < |cs| { FoldTwice(cs[|t|]); }
  }

  lemma {:induction false} BeforeZeroStops(cs: seq<CodePoint>, i: nat)
    requires i <= |cs|
    ensures var n := |BeforeZero(cs, i)|; i + n <= |cs| && (i + n == |cs| || cs[i + n] == 0)
    decreases |cs| - i
  {
    if i < |cs| && cs[i] != 0 { BeforeZeroStops(cs, i + 1); }
  }

  lemma NoneEncoded(cs: seq<CodePoint>)
    ensures EncodeAll(cs, 0) == []
  {}

  lemma FoldedPrefix(cs: seq<CodePoint>, kept: seq<CodePoint>)
    requires kept <= FoldAll(cs)
    ensures FoldAll(kept) == kept
  {
    hide Fold;
    forall i | 0 <= i < |kept|
      ensures Fold(kept[i]) == kept[i]
    {
      FoldTwice(cs[i]);
      assert kept[i] == FoldAll(cs)[i];
    }
  }

  // ---- the routines

  /** UTF8_EncodeChar into a buffer; n is how far the pointer moved. */
  method EncodeChar(buf: array<Byte>, c: CodePoint) returns (n: nat)
    requires buf.Length >= 4
    modifies buf
    ensures n == |Encode(c)| && buf[..n] == Encode(c)
  {
    if c < 0x80 {
      buf[0] := c;
      n := 1;
    } else if c < 0x800 {
      buf[0], buf[1] := 0xC0 + c / 0x40, 0x80 + c % 0x40;
      n := 2;
    } else if c < 0x1_0000 {
      buf[0], buf[1], buf[2] := 0xE0 + c / 0x1000, 0x80 + c / 0x40 % 0x40, 0x80 + c % 0x40;
      n := 3;
    } else {
      buf[0], buf[1] := 0xF0 + c / 0x4_0000 % 8, 0x80 + c / 0x1000 % 0x40;
      buf[2], buf[3] := 0x80 + c / 0x40 % 0x40, 0x80 + c % 0x40;
      n := 4;
    }
  }

  /** The C string s in memory. */
  ghost predicate Holds(mem: Str, s: Str) { At(mem, 0, s) && NulFree(s) && |s| < |mem| && mem[|s|] == 0 }

  lemma HeldByte(mem: Str, s: Str, i: nat)
    requires Holds(mem, s) && i <= |s|
    ensures i < |mem| && mem[i] == ByteAt(s, i) && (mem[i] == 0 <==> i == |s|)
  {
    assert forall k | 0 <= k < 0 + |s| :: mem[k] == s[k - 0];
  }

  /** UTF8_DecodeChar: no byte behind the NUL is looked at. */
  method DecodeChar(mem: Str, pos: nat, ghost s: Str) returns (c: CodePoint, next: nat)
    requires Holds(mem, s) && pos < |s|
    ensures c == CharAt(s, pos) && next == pos + CharLength(s, pos) <= |s|
  {
    CharLengthInside(s, pos);
    HeldByte(mem, s, pos);
    HeldByte(mem, s, pos + 1);
    if pos + 2 <= |s| { HeldByte(mem, s, pos + 2); }
    if pos + 3 <= |s| { HeldByte(mem, s, pos + 3); }
    var b0: nat := mem[pos];
    if b0 < 0x80 {
      c, next := b0 % 0x80, pos + 1;
    } else if 0xC0 <= b0 < 0xE0 && Follows(mem[pos + 1]) {
      var b1: nat := mem[pos + 1];
      c, next := b1 % 0x40 + b0 % 0x20 * 0x40, pos + 2;
    } else if 0xE0 <= b0 < 0xF0 && Follows(mem[pos + 1]) && Follows(mem[pos + 2]) {
      var b1: nat, b2: nat := mem[pos + 1], mem[pos + 2];
      c, next := b2 % 0x40 + b1 % 0x40 * 0x40 + b0 % 0x10 * 0x1000, pos + 3;
    } else if 0xF0 <= b0 < 0xF8 && Follows(mem[pos + 1]) && Follows(mem[pos + 2]) && Follows(mem[pos + 3]) {
      var b1: nat, b2: nat, b3: nat := mem[pos + 1], mem[pos + 2], mem[pos + 3];
      c, next := b3 % 0x40 + b2 % 0x40 * 0x40 + b1 % 0x40 * 0x1000 + b0 % 8 * 0x4_0000, pos + 4;
    } else {
      c, next := 0x3F, pos + 1;
    }
  }

  lemma DecodeStep(s: Str, pos: nat)
    requires NulFree(s) && pos < |s|
    ensures DecodeFrom(s, pos) == [CharAt(s, pos)] + DecodeFrom(s, pos + CharLength(s, pos))
  {}

  lemma HoldsItsString(name: Str)
    requires Terminated(name, 0)
    ensures Holds(name, CString(name, 0)) && NulFree(CString(name, 0)) && |CString(name, 0)| < |name|
  {
    CStringAt(name, 0);
  }

  lemma TitleStart()
    ensures EncodeAll(FoldAll([]), 0) == []
  {}

  /** getTitleRaw */
  method GetTitleRaw(name: Str) returns (rawString: Str)
    requires Terminated(name, 0)
    ensures rawString == Title(CString(name, 0))
  {
    hide CharAt, CharLength, Encode, Fold, DecodeFrom, EncodeAll, FoldAll, Holds, At, CString, NulFree, Terminated;
    TitleStart();
    ghost var s := CString(name, 0);
    HoldsItsString(name);
    var encodeBuf := new Byte[5];
    ghost var cs: seq<CodePoint> := [];
    var pos: nat := 0;
    rawString := [];
    HeldByte(name, s, 0);
    while name[pos] != 0
      invariant pos <= |s| < |name| && Holds(name, s)
      invariant cs + DecodeFrom(s, pos) == DecodeFrom(s, 0)
      invariant rawString == EncodeAll(FoldAll(cs), |cs|)
      decreases |s| - pos
    {
      HeldByte(name, s, pos);
      DecodeStep(s, pos);
      var ch, next := DecodeChar(name, pos, s);
      rawString := AppendChar(rawString, encodeBuf, Fold(ch));
      TitleStep(cs, ch);
      assert cs + ([ch] + DecodeFrom(s, next)) == (cs + [ch]) + DecodeFrom(s, next);
      cs := cs + [ch];
      pos := next;
    }
    HeldByte(name, s, pos);
    DecodeEnd(s);
    assert cs + [] == cs;
  }

  /** The loop's second half: one folded character to the end of the string. */
  method AppendChar(rawString: Str, encodeBuf: array<Byte>, folded: CodePoint) returns (longer: Str)
    requires encodeBuf.Length >= 5
    modifies encodeBuf
    ensures longer == rawString + Encode(folded)
  {
    hide Encode;
    var length := CharEncodedLength(folded, 4);
    EncodedLengthIff(folded, 4);
    var n := EncodeChar(encodeBuf, folded);
    assert encodeBuf[..length] == Encode(folded);
    longer := rawString + encodeBuf[..length];
  }

  lemma DecodeEnd(s: Str)
    ensures DecodeFrom(s, |s|) == []
  {}

  lemma FoldAllStep(cs: seq<CodePoint>, c: CodePoint)
    ensures FoldAll(cs + [c]) == FoldAll(cs) + [Fold(c)]
  {
    hide Fold;
  }

  lemma EncodeStep(cs: seq<CodePoint>, c: CodePoint)
    ensures EncodeAll(cs + [c], |cs| + 1) == EncodeAll(cs, |cs|) + Encode(c)
  {
    hide Encode;
    assert (cs + [c])[..|cs|] == cs[..|cs|];
    SameEncoding(cs + [c], cs, |cs|);
  }

  lemma TitleStep(cs: seq<CodePoint>, c: CodePoint)
    ensures EncodeAll(FoldAll(cs + [c]), |cs| + 1) == EncodeAll(FoldAll(cs), |cs|) + Encode(Fold(c))
  {
    hide Encode, Fold, FoldAll, EncodeAll;
    FoldAllStep(cs, c);
    EncodeStep(FoldAll(cs), Fold(c));
  }
}
