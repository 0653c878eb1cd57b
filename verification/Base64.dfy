/** base64.c, after section 5.2 of RFC 1521: encoding with padding, decoding with line breaks. */
module Base64 {
  import opened Bytes

  const BUFFER_TOO_SMALL := -0x002A
  const INVALID_CHARACTER := -0x002C
  const CR: Byte := 13
  const LF: Byte := 10
  const PAD: Byte := 61      // '='

  type Sextet = x: nat | x < 64

  /** base64_enc_map */
  function EncMap(v: Sextet): Byte
  {
    if v < 26 then 65 + v          // A-Z
    else if v < 52 then 71 + v     // a-z
    else if v < 62 then v - 4      // 0-9
    else if v == 62 then 43 else 47
  }

  /** base64_dec_map: 64 marks the padding, 127 every other character. */
  function DecMap(c: Byte): nat
    requires c < 128
    ensures DecMap(c) <= 64 || DecMap(c) == 127
  {
    if 65 <= c <= 90 then c - 65
    else if 97 <= c <= 122 then c - 71
    else if 48 <= c <= 57 then c + 4
    else if c == 43 then 62 else if c == 47 then 63
    else if c == PAD then 64 else 127
  }

  predicate InAlphabet(c: Byte) { c < 128 && DecMap(c) < 64 }

  const CAPITALS: string := "ABCDEFGHIJKLMNOPQRSTUVWXYZ"
  const SMALLS: string := "abcdefghijklmnopqrstuvwxyz"
  const DIGITS: string := "0123456789"

  /** Table 1 of RFC 1521. */
  const ALPHABET: string := CAPITALS + SMALLS + DIGITS + "+/"

  /** Both maps follow the alphabet; nothing else is in it, and '=' alone is padding. */
  lemma MapsFollowAlphabet(v: Sextet, c: Byte)
    ensures |ALPHABET| == 64 && EncMap(v) == ALPHABET[v] as int
    ensures InAlphabet(c) <==> c as char in ALPHABET
    ensures InAlphabet(c) ==> ALPHABET[SextetOf(c)] as int == c
    ensures c < 128 && !InAlphabet(c) ==> DecMap(c) == if c as char == '=' then 64 else 127
  {
    LettersFollow(v);
    if InAlphabet(c) {
      LettersFollow(DecMap(c));
      Decodes(c);
    }
    if c as char in ALPHABET {
      var w :| 0 <= w < 64 && ALPHABET[w] == c as char;
      LettersFollow(w);
      EncMapInAlphabet(w);
    }
  }

  lemma LettersFollow(v: Sextet)
    ensures |ALPHABET| == 64 && EncMap(v) == ALPHABET[v] as int
  {
    if v < 26 { Capital(v); }
    else if v < 52 { Small(v - 26); }
    else if v < 62 { Digit(v - 52); }
  }

  lemma Decodes(c: Byte)
    requires InAlphabet(c)
    ensures EncMap(DecMap(c)) == c
  {}

  lemma Capital(i: nat)
    requires i < 26
    ensures CAPITALS[i] as int == 65 + i
  {}

  lemma Small(i: nat)
    requires i < 26
    ensures SMALLS[i] as int == 97 + i
  {}

  lemma Digit(i: nat)
    requires i < 10
    ensures DIGITS[i] as int == 48 + i
  {}

  // ---- encoding

  function EncodedSize(slen: nat): nat { 4 * ((slen + 2) / 3) }

  /** The byte at i, or the 0 that completes the last group. */
  function ByteOrZero(s: Str, i: nat): Byte { if i < |s| then s[i] else 0 }

  /** Character q of group g, which takes the bytes from 3 * g on. */
  function GroupChar(s: Str, g: nat, q: nat): Byte
    requires 3 * g < |s| && q < 4
  {
    var c1: nat, c2: nat, c3: nat := s[3 * g], ByteOrZero(s, 3 * g + 1), ByteOrZero(s, 3 * g + 2);
    if q == 0 then EncMap(c1 / 4)
    else if q == 1 then EncMap(c1 % 4 * 16 + c2 / 16)
    else if q == 2 then if 3 * g + 1 < |s| then EncMap(c2 % 16 * 4 + c3 / 64) else PAD
    else if 3 * g + 2 < |s| then EncMap(c3 % 64) else PAD
  }

  function Encoded(s: Str): (t: Str)
    ensures |t| == EncodedSize(|s|)
  {
    seq(EncodedSize(|s|), p requires 0 <= p < EncodedSize(|s|) => GroupChar(s, p / 4, p % 4))
  }

  // ---- decoding, on text without line breaks

  /** Padding characters among the first n. */
  function Pads(t: Str, n: nat): nat
    requires n <= |t|
  {
    if n == 0 then 0 else Pads(t, n - 1) + if t[n - 1] == PAD then 1 else 0
  }

  /** The first n are characters of the alphabet, then at most two of padding. */
  predicate Acceptable(t: Str, n: nat)
    requires n <= |t|
  {
    n == 0 ||
    (Acceptable(t, n - 1) && ((t[n - 1] == PAD && Pads(t, n - 1) < 2) || (InAlphabet(t[n - 1]) && Pads(t, n - 1) == 0)))
  }

  function SextetOf(c: Byte): Sextet { if InAlphabet(c) then DecMap(c) else 0 }

  /** The bytes of four characters, of which the first j are kept. */
  function Ungroup(a: Byte, b: Byte, c: Byte, d: Byte, j: int): (r: Str)
    ensures |r| <= 3
  {
    var v0: nat, v1: nat, v2: nat, v3: nat := SextetOf(a), SextetOf(b), SextetOf(c), SextetOf(d);
    var r := [v0 * 4 + v1 / 16, v1 % 16 * 16 + v2 / 4, v2 % 4 * 64 + v3];
    if j >= 3 then r else if j <= 0 then [] else r[..j]
  }

  /** What the first k groups decode to; a group short of characters decodes to nothing. */
  function Out(t: Str, k: nat): (b: Str)
    requires 4 * k <= |t|
    ensures |b| <= 3 * k
  {
    if k == 0 then []
    else Out(t, k - 1) + Ungroup(t[4 * k - 4], t[4 * k - 3], t[4 * k - 2], t[4 * k - 1], 3 - Pads(t, 4 * k))
  }

  function Decoded(t: Str): Str { Out(t, |t| / 4) }

  // ---- round trip

  lemma EncMapInAlphabet(v: Sextet)
    ensures EncMap(v) != PAD && InAlphabet(EncMap(v)) && SextetOf(EncMap(v)) == v
  {}

  lemma GroupChars(s: Str, g: nat)
    requires 3 * g < |s|
    ensures 4 * g + 4 <= |Encoded(s)|
    ensures forall q | 0 <= q < 4 :: Encoded(s)[4 * g + q] == GroupChar(s, g, q)
  {
    forall q | 0 <= q < 4
      ensures Encoded(s)[4 * g + q] == GroupChar(s, g, q)
    {
      assert (4 * g + q) / 4 == g && (4 * g + q) % 4 == q;
    }
  }

  /** Four sextets, or three bytes, as one number, the first highest. */
  function SextetNumber(a: Byte, b: Byte, c: Byte, d: Byte): nat
  {
    SextetOf(d) as int + 0x40 * (SextetOf(c) as int + 0x40 * (SextetOf(b) as int + 0x40 * (SextetOf(a) as int)))
  }

  function ByteNumber(c1: Byte, c2: Byte, c3: Byte): nat
  {
    c3 as int + 0x100 * (c2 as int + 0x100 * (c1 as int))
  }

  /** The characters of a group and its bytes are the same number, missing bytes counted as zero; each missing byte
      is a character of padding at the end. */
  lemma GroupNumber(s: Str, g: nat)
    requires 3 * g < |s|
    ensures
      SextetNumber(GroupChar(s, g, 0), GroupChar(s, g, 1), GroupChar(s, g, 2), GroupChar(s, g, 3))
      == ByteNumber(s[3 * g], ByteOrZero(s, 3 * g + 1), ByteOrZero(s, 3 * g + 2))
    ensures GroupChar(s, g, 0) != PAD && GroupChar(s, g, 1) != PAD
    ensures GroupChar(s, g, 2) == PAD <==> |s| == 3 * g + 1
    ensures GroupChar(s, g, 3) == PAD <==> |s| <= 3 * g + 2
  {
    hide EncMap, SextetOf, InAlphabet;
    var c1, c2, c3 := s[3 * g], ByteOrZero(s, 3 * g + 1), ByteOrZero(s, 3 * g + 2);
    SplitNumber(c1, c2, c3);
    EncMapInAlphabet(c1 / 4);
    EncMapInAlphabet(c1 % 4 * 16 + c2 / 16);
    EncMapInAlphabet(c2 % 16 * 4 + c3 / 64);
    EncMapInAlphabet(c3 % 64);
    PadSextet();
  }

  lemma SplitNumber(c1: Byte, c2: Byte, c3: Byte)
    ensures c1 / 4 < 64 && c1 % 4 * 16 + c2 / 16 < 64 && c2 % 16 * 4 + c3 / 64 < 64
    ensures
      c3 % 64 + 0x40 * ((c2 % 16 * 4 + c3 / 64) as int + 0x40 * ((c1 % 4 * 16 + c2 / 16) as int + 0x40 * (c1 / 4)))
      == ByteNumber(c1, c2, c3)
  {}

  /** Back again, for any four characters; where fewer bytes are kept, they are the first ones. */
  lemma UngroupNumber(a: Byte, b: Byte, c: Byte, d: Byte, j: nat)
    requires j <= 3
    ensures |Ungroup(a, b, c, d, j)| == j && Ungroup(a, b, c, d, j) <= Ungroup(a, b, c, d, 3)
    ensures
      var r := Ungroup(a, b, c, d, 3);
      |r| == 3 && ByteNumber(r[0], r[1], r[2]) == SextetNumber(a, b, c, d)
  {
    hide SextetOf;
  }

  /** Four characters back to the bytes they were made from. */
  lemma UngroupBytes(c1: Byte, c2: Byte, c3: Byte)
    ensures
      var a, b, c, d := EncMap(c1 / 4), EncMap(c1 % 4 * 16 + c2 / 16), EncMap(c2 % 16 * 4 + c3 / 64), EncMap(c3 % 64);
      && Ungroup(a, b, c, d, 3) == [c1, c2, c3]
      && (c3 == 0 ==> Ungroup(a, b, c, PAD, 2) == [c1, c2])
      && (c3 == 0 && c2 == 0 ==> Ungroup(a, b, PAD, PAD, 1) == [c1])
  {
    hide EncMap, SextetOf;
    ThreeBytes(c1, c2, c3);
    EncMapInAlphabet(c1 / 4);
    EncMapInAlphabet(c1 % 4 * 16 + c2 / 16);
    EncMapInAlphabet(c2 % 16 * 4 + c3 / 64);
    EncMapInAlphabet(c3 % 64);
    PadSextet();
  }

  lemma UngroupGroup(s: Str, g: nat)
    requires 3 * g < |s|
    ensures
      var n := if |s| - 3 * g < 3 then |s| - 3 * g else 3;
      Ungroup(GroupChar(s, g, 0), GroupChar(s, g, 1), GroupChar(s, g, 2), GroupChar(s, g, 3), n) == s[3 * g..3 * g + n]
  {
    hide EncMap, Ungroup;
    var k := 3 * g;
    var c1, c2, c3 := s[k], ByteOrZero(s, k + 1), ByteOrZero(s, k + 2);
    UngroupBytes(c1, c2, c3);
    if |s| - k == 1 {
      assert s[k..k + 1] == [c1];
    } else if |s| - k == 2 {
      assert s[k..k + 2] == [c1, c2];
    } else {
      assert s[k..k + 3] == [c1, c2, c3];
    }
  }

  /** Four sextets of three bytes, put together again. */
  lemma ThreeBytes(c1: nat, c2: nat, c3: nat)
    requires c1 < 256 && c2 < 256 && c3 < 256
    ensures c1 / 4 < 64 && c1 % 4 * 16 + c2 / 16 < 64 && c2 % 16 * 4 + c3 / 64 < 64
    ensures c1 / 4 * 4 + (c1 % 4 * 16 + c2 / 16) / 16 == c1
    ensures (c1 % 4 * 16 + c2 / 16) % 16 * 16 + (c2 % 16 * 4 + c3 / 64) / 4 == c2
    ensures (c2 % 16 * 4 + c3 / 64) % 4 * 64 + c3 % 64 == c3
  {}

  lemma PadSextet()
    ensures SextetOf(PAD) == 0 && !InAlphabet(PAD)
  {}

  /** Padding and acceptance over one more group. */
  lemma GroupPads(s: Str, g: nat)
    requires 3 * g < |s|
    requires 4 * g <= |Encoded(s)| && Pads(Encoded(s), 4 * g) == 0 && Acceptable(Encoded(s), 4 * g)
    ensures 4 * g + 4 <= |Encoded(s)|
    ensures Pads(Encoded(s), 4 * g + 4) == if |s| - 3 * g < 3 then 3 - (|s| - 3 * g) else 0
    ensures Acceptable(Encoded(s), 4 * g + 4)
  {
    hide EncMap, InAlphabet, Encoded;
    var t, m := Encoded(s), 4 * g;
    GroupChars(s, g);
    var c1: nat, c2: nat, c3: nat := s[3 * g], ByteOrZero(s, 3 * g + 1), ByteOrZero(s, 3 * g + 2);
    EncMapInAlphabet(c1 / 4);
    EncMapInAlphabet(c1 % 4 * 16 + c2 / 16);
    EncMapInAlphabet(c2 % 16 * 4 + c3 / 64);
    EncMapInAlphabet(c3 % 64);
    assert t[m + 0] == GroupChar(s, g, 0) && t[m + 1] == GroupChar(s, g, 1);
    assert t[m + 2] == GroupChar(s, g, 2) && t[m + 3] == GroupChar(s, g, 3);
    assert Pads(t, m + 1) == 0 && Acceptable(t, m + 1);
    assert Pads(t, m + 2) == 0 && Acceptable(t, m + 2);
    assert Acceptable(t, m + 3);
  }

  /** The first k groups of an encoding decode to the bytes they were made from. */
  lemma {:induction false} OutEncoded(s: Str, k: nat)
    requires k <= (|s| + 2) / 3
    ensures
      var t, n := Encoded(s), if 3 * k <= |s| then 3 * k else |s|;
      4 * k <= |t| && Out(t, k) == s[..n] && Pads(t, 4 * k) == 3 * k - n && Acceptable(t, 4 * k)
  {
    hide Encoded, GroupChar, Ungroup, Out, Pads, Acceptable;
    if k == 0 {
      NoneOut(Encoded(s));
    } else {
      OutEncoded(s, k - 1);
      GroupPads(s, k - 1);
      OutGroup(s, k - 1);
      assert s[..3 * (k - 1)] + s[3 * (k - 1)..if 3 * k <= |s| then 3 * k else |s|]
        == s[..if 3 * k <= |s| then 3 * k else |s|];
    }
  }

  lemma NoneOut(t: Str)
    ensures Out(t, 0) == [] && Pads(t, 0) == 0 && Acceptable(t, 0)
  {}

  lemma OutNext(t: Str, g: nat)
    requires 4 * g + 4 <= |t|
    ensures Out(t, g + 1) == Out(t, g)
      + Ungroup(t[4 * g], t[4 * g + 1], t[4 * g + 2], t[4 * g + 3], 3 - Pads(t, 4 * g + 4))
  {
    hide Ungroup, Pads;
  }

  lemma OutGroup(s: Str, g: nat)
    requires 3 * g < |s| && 4 * g + 4 <= |Encoded(s)|
    requires Pads(Encoded(s), 4 * g + 4) == if |s| - 3 * g < 3 then 3 - (|s| - 3 * g) else 0
    ensures Out(Encoded(s), g + 1) == Out(Encoded(s), g) + s[3 * g..if 3 * g + 3 <= |s| then 3 * g + 3 else |s|]
  {
    hide Encoded, GroupChar, Ungroup, Pads, Out;
    GroupChars(s, g);
    UngroupGroup(s, g);
    var t := Encoded(s);
    OutNext(t, g);
    assert t[4 * g + 0] == GroupChar(s, g, 0) && t[4 * g + 1] == GroupChar(s, g, 1)
        && t[4 * g + 2] == GroupChar(s, g, 2) && t[4 * g + 3] == GroupChar(s, g, 3);
  }

  /** Decoding an encoding gives the bytes back, whatever their number. */
  lemma DecodedEncoded(s: Str)
    ensures Acceptable(Encoded(s), |Encoded(s)|) && Decoded(Encoded(s)) == s
  {
    hide Encoded, Out, Acceptable, Pads;
    var k := (|s| + 2) / 3;
    OutEncoded(s, k);
    assert |Encoded(s)| == 4 * k;
    assert s[..|s|] == s;
  }

  /** What is accepted: characters of the alphabet, and behind them at most two of padding. */
  lemma {:induction false} AcceptableIff(t: Str, n: nat)
    requires n <= |t|
    ensures Acceptable(t, n) <==> exists m: nat :: PaddedFrom(t, n, m)
    ensures forall m: nat | PaddedFrom(t, n, m) :: Pads(t, n) == n - m
  {
    hide InAlphabet;
    PadSextet();
    if n == 0 {
      assert PaddedFrom(t, 0, 0);
    } else {
      AcceptableIff(t, n - 1);
      if Acceptable(t, n) {
        var m: nat :| PaddedFrom(t, n - 1, m);
        assert PaddedFrom(t, n, if t[n - 1] == PAD then m else n);
      }
      forall m: nat | PaddedFrom(t, n, m)
        ensures Acceptable(t, n) && Pads(t, n) == n - m
      {
        assert PaddedFrom(t, n - 1, if m < n then m else n - 1);
      }
    }
  }

  ghost predicate PaddedFrom(t: Str, n: nat, m: nat)
    requires n <= |t|
  {
    && m <= n <= m + 2
    && (forall i | 0 <= i < m :: InAlphabet(t[i])) && (forall i | m <= i < n :: t[i] == PAD)
  }

  // ---- line breaks

  predicate Break(c: Byte) { c == CR || c == LF }

  /** The first n characters of u without carriage returns and line feeds. */
  function Strip(u: Str, n: nat): (t: Str)
    requires n <= |u|
    ensures |t| <= n
  {
    if n == 0 then [] else Strip(u, n - 1) + if Break(u[n - 1]) then [] else [u[n - 1]]
  }

  /** Every carriage return among the first n has a line feed behind it. */
  ghost predicate Wrapped(u: Str, n: nat)
    requires n <= |u|
  {
    forall k | 0 <= k < n && u[k] == CR :: k + 1 < |u| && u[k + 1] == LF
  }

  /** What decoding says of any text: line breaks are looked through, a lone carriage return is not. */
  ghost predicate Decodable(u: Str)
  {
    Wrapped(u, |u|) && Acceptable(Strip(u, |u|), |Strip(u, |u|)|)
  }

  function Needed(n: nat): nat { (6 * n + 7) / 8 }

  /** The fewest bytes that have room for n characters of six bits. */
  lemma NeededIs(n: nat, m: nat)
    ensures 8 * m >= 6 * n <==> m >= Needed(n)
  {}

  /** Nothing but carriage returns and line feeds is taken out. */
  lemma {:induction false} StripKeeps(u: Str, n: nat)
    requires n <= |u|
    ensures forall c: Byte :: multiset(Strip(u, n))[c] == if c == 13 || c == 10 then 0 else multiset(u[..n])[c]
  {
    if n > 0 {
      StripKeeps(u, n - 1);
      assert u[..n] == u[..n - 1] + [u[n - 1]];
    } else {
      assert u[..0] == [];
    }
  }

  lemma {:induction false} SamePrefix(t: Str, u: Str, n: nat)
    requires n <= |t| && t <= u
    ensures Pads(t, n) == Pads(u, n) && (Acceptable(t, n) <==> Acceptable(u, n))
  {
    if n > 0 {
      SamePrefix(t, u, n - 1);
      assert t[n - 1] == u[n - 1];
    }
  }

  lemma {:induction false} SameOut(t: Str, u: Str, k: nat)
    requires 4 * k <= |t| && t <= u
    ensures Out(t, k) == Out(u, k)
  {
    hide Pads, Ungroup, Out;
    if k == 0 {
      NoneOut(t);
      NoneOut(u);
    } else {
      SameOut(t, u, k - 1);
      SamePrefix(t, u, 4 * k);
      OutNext(t, k - 1);
      OutNext(u, k - 1);
    }
  }

  lemma {:induction false} AcceptablePrefix(t: Str, n: nat, m: nat)
    requires n <= m <= |t| && Acceptable(t, m)
    ensures Acceptable(t, n)
  {
    if n < m { AcceptablePrefix(t, n, m - 1); }
  }

  lemma {:induction false} StripPrefix(u: Str, n: nat, m: nat)
    requires n <= m <= |u|
    ensures Strip(u, n) <= Strip(u, m)
  {
    if n < m { StripPrefix(u, n, m - 1); }
  }

  /** A prefix that does not decode spoils the whole. */
  lemma BadPrefix(u: Str, n: nat)
    requires n <= |u| && !Acceptable(Strip(u, n), |Strip(u, n)|)
    ensures !Decodable(u)
  {
    var t, all := Strip(u, n), Strip(u, |u|);
    StripPrefix(u, n, |u|);
    SamePrefix(t, all, |t|);
    if Acceptable(all, |all|) { AcceptablePrefix(all, |t|, |all|); }
  }

  /** u is t with line breaks put in: CR LF or LF, anywhere. */
  ghost predicate BrokenUp(u: Str, t: Str)
  {
    Wrapped(u, |u|) && Strip(u, |u|) == t
  }

  /** Line breaks in an encoding change nothing. */
  lemma BrokenEncodingDecodes(u: Str, s: Str)
    requires BrokenUp(u, Encoded(s))
    ensures Decodable(u) && Decoded(Strip(u, |u|)) == s
  {
    hide Strip, Acceptable, Encoded;
    DecodedEncoded(s);
  }

  /** Putting CR LF or LF into a text keeps what it decodes to, unless it parts a CR from its LF. */
  lemma InsertBreak(u: Str, at: nat, br: Str)
    requires at <= |u| && (br == [CR, LF] || br == [LF])
    requires Wrapped(u, |u|) && !(0 < at < |u| && u[at - 1] == CR)
    ensures BrokenUp(u[..at] + br + u[at..], Strip(u, |u|))
  {
    hide Strip, Wrapped;
    var v := u[..at] + br + u[at..];
    assert |v| == |u| + |br|;
    WrappedInsert(u, at, br);
    StripInsert(u, at, br, |u|);
    assert Wrapped(v, |v|) && Strip(v, |v|) == Strip(u, |u|);
  }

  lemma WrappedInsert(u: Str, at: nat, br: Str)
    requires at <= |u| && (br == [CR, LF] || br == [LF])
    requires Wrapped(u, |u|) && !(0 < at < |u| && u[at - 1] == CR)
    ensures Wrapped(u[..at] + br + u[at..], |u| + |br|)
  {
    var v := u[..at] + br + u[at..];
    assert v[at..at + |br|] == br;
    forall k | 0 <= k < |v| && v[k] == CR
      ensures k + 1 < |v| && v[k + 1] == LF
    {
      if k < at {
        assert u[k] == CR;
        assert u[k + 1] == LF && k + 1 < at;
      } else if k < at + |br| {
        assert v[k] == br[k - at];
        assert v[at + 1] == br[1];
      } else {
        assert v[k] == u[k - |br|];
        assert v[k + 1] == u[k - |br| + 1];
      }
    }
  }

  lemma {:induction false} StripInsert(u: Str, at: nat, br: Str, n: nat)
    requires at <= n <= |u| && (br == [CR, LF] || br == [LF])
    ensures
      var v := u[..at] + br + u[at..];
      n + |br| <= |v| && Strip(v, n + |br|) == Strip(u, n)
  {
    var v := u[..at] + br + u[at..];
    StripThrough(u, v, at, br, n);
  }

  lemma {:induction false} StripThrough(u: Str, v: Str, at: nat, br: Str, n: nat)
    requires at <= n <= |u| && n + |br| <= |v| && (br == [CR, LF] || br == [LF])
    requires forall k | 0 <= k < at :: v[k] == u[k]
    requires forall k | 0 <= k < |br| :: v[at + k] == br[k]
    requires forall k | at <= k < n :: v[k + |br|] == u[k]
    ensures Strip(v, n + |br|) == Strip(u, n)
  {
    if n == at {
      StripSame(u, v, at);
      assert v[at] == br[0] && Strip(v, at + 1) == Strip(v, at);
      if |br| == 2 { assert v[at + 1] == br[1] && Strip(v, at + 2) == Strip(v, at + 1); }
    } else {
      StripThrough(u, v, at, br, n - 1);
      assert v[n - 1 + |br|] == u[n - 1];
    }
  }

  lemma {:induction false} StripSame(u: Str, v: Str, n: nat)
    requires n <= |u| && n <= |v| && forall k | 0 <= k < n :: u[k] == v[k]
    ensures Strip(u, n) == Strip(v, n)
  {
    if n > 0 { StripSame(u, v, n - 1); }
  }

  // ---- the two routines

  lemma SizeTest(slen: nat)
    ensures
      var n := 8 * slen / 6;
      && (8 * slen - 6 * n == 0 || 8 * slen - 6 * n == 2 || 8 * slen - 6 * n == 4)
      && EncodedSize(slen) == n + if 8 * slen - 6 * n == 2 then 3 else if 8 * slen - 6 * n == 4 then 2 else 0
  {
    var q, r := slen / 3, slen % 3;
    assert slen == 3 * q + r;
    assert 8 * slen / 6 == 4 * q + (if r == 0 then 0 else r);
  }

  /** The characters of group g into dst. */
  method PutGroup(dst: array<Byte>, ghost s: Str, g: nat, c1: Byte, c2: Byte, c3: Byte, third: bool, fourth: bool)
    requires 3 * g < |s| && 4 * g + 4 <= dst.Length
    requires c1 == s[3 * g] && c2 == ByteOrZero(s, 3 * g + 1) && c3 == ByteOrZero(s, 3 * g + 2)
    requires third == (3 * g + 1 < |s|) && fourth == (3 * g + 2 < |s|)
    requires dst[..4 * g] == Encoded(s)[..4 * g]
    modifies dst
    ensures 4 * g + 4 <= |Encoded(s)| && dst[..4 * g + 4] == Encoded(s)[..4 * g + 4]
    ensures forall k | 4 * g + 4 <= k < dst.Length :: dst[k] == old(dst[k])
  {
    hide EncMap, Encoded;
    GroupChars(s, g);
    ghost var t := Encoded(s);
    assert t[4 * g + 0] == GroupChar(s, g, 0) && t[4 * g + 1] == GroupChar(s, g, 1)
        && t[4 * g + 2] == GroupChar(s, g, 2) && t[4 * g + 3] == GroupChar(s, g, 3);
    var d1: nat, d2: nat, d3: nat := c1, c2, c3;
    dst[4 * g] := EncMap(d1 / 4);
    dst[4 * g + 1] := EncMap(d1 % 4 * 16 + d2 / 16);
    dst[4 * g + 2] := if third then EncMap(d2 % 16 * 4 + d3 / 64) else PAD;
    dst[4 * g + 3] := if fourth then EncMap(d3 % 64) else PAD;
    assert dst[..4 * g] == t[..4 * g];
  }

  /** base64_encode; the size asked for leaves room for the final NUL. */
  method Encode(dst: array<Byte>, dlen: nat, src: Str) returns (status: int, written: nat)
    requires dlen <= dst.Length
    modifies dst
    ensures |src| == 0 ==> status == 0 && written == dlen && dst[..] == old(dst[..])
    ensures |src| > 0 && dlen < EncodedSize(|src|) + 1 ==>
      status == BUFFER_TOO_SMALL && written == EncodedSize(|src|) + 1 && dst[..] == old(dst[..])
    ensures |src| > 0 && dlen >= EncodedSize(|src|) + 1 ==>
      && status == 0 && written == EncodedSize(|src|) && dst[..written] == Encoded(src) && dst[written] == 0
      && forall k | written < k < dst.Length :: dst[k] == old(dst[k])
  {
    hide Encoded;
    if |src| == 0 { return 0, dlen; }
    var slen := |src|;
    var n := 8 * slen / 6;
    SizeTest(slen);
    if 8 * slen - n * 6 == 2 { n := n + 3; }
    else if 8 * slen - n * 6 == 4 { n := n + 2; }
    if dlen < n + 1 { return BUFFER_TOO_SMALL, n + 1; }
    var groups := slen / 3;
    for g := 0 to groups
      invariant dst[..4 * g] == Encoded(src)[..4 * g]
      invariant forall k | 4 * g <= k < dst.Length :: dst[k] == old(dst[k])
    {
      PutGroup(dst, src, g, src[3 * g], src[3 * g + 1], src[3 * g + 2], true, true);
    }
    var i, p := 3 * groups, 4 * groups;
    if i < slen {
      var c2 := if i + 1 < slen then src[i + 1] else 0;
      PutGroup(dst, src, groups, src[i], c2, 0, i + 1 < slen, false);
      p := p + 4;
    }
    assert p == EncodedSize(slen) && dst[..p] == Encoded(src);
    dst[p] := 0;
    return 0, p;
  }

  /** The number the r sextets before n make. */
  function Value(t: Str, n: nat, r: nat): nat
    requires r <= n <= |t|
  {
    if r == 0 then 0 else Value(t, n - 1, r - 1) * 64 + SextetOf(t[n - 1])
  }

  function Power(r: nat): nat
    requires r <= 4
    ensures Power(r) > 0
  {
    if r == 0 then 1 else if r == 1 then 64 else if r == 2 then 4096 else if r == 3 then 262144 else 16777216
  }

  /** Shifting six bits into a 32-bit register, seen modulo 64 to the r. */
  lemma ShiftIn(x: U32, v: Sextet, r: nat)
    requires r < 4
    ensures Wrap32(x * 64) + v < 0x1_0000_0000
    ensures (Wrap32(x * 64) + v) % Power(r + 1) == x % Power(r) * 64 + v
  {
    WrapParts(x);
    if r == 0 { ShiftMod(x, v, 1, 0x400_0000); }
    else if r == 1 { ShiftMod(x, v, 64, 0x10_0000); }
    else if r == 2 { ShiftMod(x, v, 4096, 0x4000); }
    else { ShiftMod(x, v, 262144, 0x100); }
  }

  lemma WrapParts(x: U32)
    ensures Wrap32(x * 64) == 64 * (x % 0x400_0000)
  {}

  lemma ShiftMod(x: U32, v: Sextet, m: nat, k: nat)
    requires m > 0 && k > 0 && m * k == 0x400_0000
    ensures (64 * (x % 0x400_0000) + v) % (64 * m) == 64 * (x % m) + v
  {
    var q, y := x / 0x400_0000, x % 0x400_0000;
    assert x == 0x400_0000 * q + y;
    ModTwice(x, y, q, m, k);
    var a, b := y / m, y % m;
    assert y == m * a + b;
    assert 64 * y + v == 64 * m * a + (64 * b + v) by { assert 64 * (m * a) == 64 * m * a; }
    RemainderIs(64 * y + v, 64 * m, a, 64 * b + v);
  }

  lemma ModTwice(x: nat, y: nat, q: nat, m: nat, k: nat)
    requires m > 0 && x == m * k * q + y
    ensures x % m == y % m
  {
    var a, b := y / m, y % m;
    assert x == m * (k * q + a) + b by { assert m * k * q == m * (k * q); }
    RemainderIs(x, m, k * q + a, b);
  }

  lemma RemainderIs(x: nat, m: nat, q: nat, r: nat)
    requires m > 0 && r < m && x == m * q + r
    ensures x % m == r
  {
    var d := x / m - q;
    assert x == m * (x / m) + x % m;
    assert m * d == r - x % m by { assert m * (x / m - q) == m * (x / m) - m * q; }
    TimesSign(m, d);
  }

  lemma TimesSign(m: nat, d: int)
    ensures d > 0 ==> m * d >= m
    ensures d < 0 ==> m * d <= 0 - m
  {}

  lemma LowBytes(x: U32)
    ensures
      var w := x % 0x100_0000;
      x / 0x1_0000 % 0x100 == w / 0x1_0000 && x / 0x100 % 0x100 == w / 0x100 % 0x100 && x % 0x100 == w % 0x100
  {
    var w, q := x % 0x100_0000, x / 0x100_0000;
    assert x == 0x100_0000 * q + w;
    assert x / 0x1_0000 == 0x100 * q + w / 0x1_0000;
    assert x / 0x100 == 0x1_0000 * q + w / 0x100;
  }

  lemma SplitSextets(v0: Sextet, v1: Sextet, v2: Sextet, v3: Sextet)
    ensures
      var w := ((v0 * 64 + v1) * 64 + v2) * 64 + v3;
      && w / 0x1_0000 == v0 * 4 + v1 / 16 && w / 0x100 % 0x100 == v1 % 16 * 16 + v2 / 4
      && w % 0x100 == v2 % 4 * 64 + v3
  {
    var w: nat := ((v0 * 64 + v1) * 64 + v2) * 64 + v3;
    var h1: nat, l1: nat, h2: nat, l2: nat := v1 / 16, v1 % 16, v2 / 4, v2 % 4;
    assert v1 == 16 * h1 + l1 && v2 == 4 * h2 + l2;
    var b0: nat, b1: nat, b2: nat := v0 * 4 + h1, l1 * 16 + h2, l2 * 64 + v3;
    assert w == 0x1_0000 * b0 + 0x100 * b1 + b2;
    Digits(w, b0, b1, b2);
  }

  lemma Digits(w: nat, b0: nat, b1: nat, b2: nat)
    requires b1 < 0x100 && b2 < 0x100 && w == 0x1_0000 * b0 + 0x100 * b1 + b2
    ensures w / 0x1_0000 == b0 && w / 0x100 % 0x100 == b1 && w % 0x100 == b2
  {
    assert w / 0x100 == 0x100 * b0 + b1;
  }

  /** Three bytes out of the register after four sextets. */
  lemma TakeOut(x: U32, v0: Sextet, v1: Sextet, v2: Sextet, v3: Sextet)
    requires x % 0x100_0000 == ((v0 * 64 + v1) * 64 + v2) * 64 + v3
    ensures x / 0x1_0000 % 0x100 == v0 * 4 + v1 / 16
    ensures x / 0x100 % 0x100 == v1 % 16 * 16 + v2 / 4
    ensures x % 0x100 == v2 % 4 * 64 + v3
  {
    LowBytes(x);
    SplitSextets(v0, v1, v2, v3);
  }

  lemma StripStep(u: Str, i: nat)
    requires i < |u|
    ensures Break(u[i]) ==> Strip(u, i + 1) == Strip(u, i)
    ensures !Break(u[i]) ==> Strip(u, i + 1) == Strip(u, i) + [u[i]]
  {}

  /** One more character. */
  lemma AcceptStep(t: Str, c: Byte)
    ensures Pads(t + [c], |t| + 1) == Pads(t, |t|) + if c == PAD then 1 else 0
    ensures Acceptable(t + [c], |t| + 1) <==>
      Acceptable(t, |t|) && ((c == PAD && Pads(t, |t|) < 2) || (InAlphabet(c) && Pads(t, |t|) == 0))
  {
    SamePrefix(t, t + [c], |t|);
  }

  lemma NothingRead(u: Str)
    ensures Strip(u, 0) == [] && Pads([], 0) == 0 && Acceptable([], 0) && Out([], 0) == []
  {}

  /** The checking loop of base64_decode. */
  method CheckText(src: Str) returns (ok: bool, n: nat)
    ensures ok <==> Decodable(src)
    ensures ok ==> n == |Strip(src, |src|)|
  {
    hide Strip, Pads, Acceptable, InAlphabet;
    NothingRead(src);
    var j: nat := 0;
    n := 0;
    for i := 0 to |src|
      invariant Wrapped(src, i) && Acceptable(Strip(src, i), |Strip(src, i)|)
      invariant n == |Strip(src, i)| && j == Pads(Strip(src, i), |Strip(src, i)|) <= 2
    {
      StripStep(src, i);
      AcceptStep(Strip(src, i), src[i]);
      if |src| - i >= 2 && src[i] == CR && src[i + 1] == LF { continue; }
      if src[i] == LF { continue; }
      AlphabetOf(src[i]);
      if src[i] == PAD {
        j := j + 1;
        if j > 2 { BadPrefix(src, i + 1); return false, 0; }
      }
      if src[i] > 127 || DecMap(src[i]) == 127 {
        if src[i] == CR { LoneReturn(src, i); } else { BadPrefix(src, i + 1); }
        return false, 0;
      }
      if DecMap(src[i]) < 64 && j != 0 { BadPrefix(src, i + 1); return false, 0; }
      n := n + 1;
    }
    return true, n;
  }

  lemma LoneReturn(u: Str, i: nat)
    requires i < |u| && u[i] == CR && !(i + 1 < |u| && u[i + 1] == LF)
    ensures !Decodable(u)
  {}

  lemma AlphabetOf(c: Byte)
    ensures c < 128 ==> (DecMap(c) < 64 <==> InAlphabet(c)) && (DecMap(c) == 64 <==> c == PAD)
    ensures c > 127 ==> !InAlphabet(c)
    ensures c == PAD ==> !InAlphabet(c) && c < 128
    ensures c == CR ==> c < 128 && DecMap(c) == 127
  {}

  lemma ValueStep(t: Str, c: Byte, r: nat)
    requires r <= |t|
    ensures Value(t + [c], |t| + 1, r + 1) == Value(t, |t|, r) * 64 + SextetOf(c)
  {
    ValueSame(t, t + [c], |t|, r);
  }

  lemma {:induction false} ValueSame(t: Str, u: Str, n: nat, r: nat)
    requires r <= n <= |t| && t <= u
    ensures Value(t, n, r) == Value(u, n, r)
  {
    if r > 0 {
      ValueSame(t, u, n - 1, r - 1);
      assert t[n - 1] == u[n - 1];
    }
  }

  /** Four sextets in one number. */
  function Joined(a: Byte, b: Byte, c: Byte, d: Byte): nat
  {
    ((SextetOf(a) * 64 + SextetOf(b)) * 64 + SextetOf(c)) * 64 + SextetOf(d)
  }

  lemma ValueFour(t: Str, n: nat)
    requires 4 <= n <= |t|
    ensures Value(t, n, 4) == Joined(t[n - 4], t[n - 3], t[n - 2], t[n - 1])
  {
    hide SextetOf;
    assert Value(t, n - 4, 0) == 0;
    assert Value(t, n - 3, 1) == SextetOf(t[n - 4]);
    assert Value(t, n - 2, 2) == Value(t, n - 3, 1) * 64 + SextetOf(t[n - 3]);
    assert Value(t, n - 1, 3) == Value(t, n - 2, 2) * 64 + SextetOf(t[n - 2]);
  }

  /** The three conditional stores at the end of a group. */
  method StoreGroup(
    dst: array<Byte>, p: nat, x: U32, j: nat, ghost a: Byte, ghost b: Byte, ghost c: Byte, ghost d: Byte)
    returns (q: nat)
    requires p + 3 <= dst.Length
    requires x % 0x100_0000 == Joined(a, b, c, d)
    modifies dst
    ensures q == p + |Ungroup(a, b, c, d, j)| && dst[..q] == old(dst[..p]) + Ungroup(a, b, c, d, j)
    ensures forall k | p + 3 <= k < dst.Length :: dst[k] == old(dst[k])
  {
    hide SextetOf;
    TakeOut(x, SextetOf(a), SextetOf(b), SextetOf(c), SextetOf(d));
    q := p;
    if j > 0 { dst[q] := x / 0x1_0000 % 0x100; q := q + 1; }
    if j > 1 { dst[q] := x / 0x100 % 0x100; q := q + 1; }
    if j > 2 { dst[q] := x % 0x100; q := q + 1; }
  }

  /** The state of the decoding loop after the characters of t. */
  ghost predicate Decoding(t: Str, n: nat, j: nat, x: U32, out: Str)
  {
    && n == |t| % 4 && Pads(t, |t|) <= 2 && j == 3 - Pads(t, |t|)
    && n <= |t| && x % Power(n) == Value(t, |t|, n)
    && out == Out(t, |t| / 4)
  }

  lemma DecodingStep(t: Str, c: Byte, n: nat, j: nat, x: U32, y: U32, out: Str)
    requires Decoding(t, n, j, x, out) && Pads(t + [c], |t| + 1) <= 2 && n < 3
    requires y == Wrap32(x * 64) + SextetOf(c)
    ensures Decoding(t + [c], n + 1, if c == PAD then j - 1 else j, y, out)
  {
    hide Out, Value, SextetOf, Power, Pads, Acceptable;
    ShiftIn(x, SextetOf(c), n);
    ValueStep(t, c, n);
    AcceptStep(t, c);
    assert |t| / 4 == (|t| + 1) / 4;
    SameOut(t, t + [c], |t| / 4);
  }

  lemma GroupValue(t: Str, c: Byte, x: U32, y: U32)
    requires |t| >= 3 && x % Power(3) == Value(t, |t|, 3) && y == Wrap32(x * 64) + SextetOf(c)
    ensures
      var u, m := t + [c], |t|;
      y % 0x100_0000 == Joined(u[m - 3], u[m - 2], u[m - 1], u[m])
  {
    hide Value, SextetOf, Joined;
    ShiftIn(x, SextetOf(c), 3);
    ValueStep(t, c, 3);
    ValueFour(t + [c], |t| + 1);
  }

  lemma GroupOut(t: Str, c: Byte)
    requires |t| % 4 == 3
    ensures
      var u, m := t + [c], |t|;
      Out(u, (m + 1) / 4) == Out(t, m / 4) + Ungroup(u[m - 3], u[m - 2], u[m - 1], u[m], 3 - Pads(u, m + 1))
  {
    hide Out, Pads, Ungroup;
    var u, m, k := t + [c], |t|, |t| / 4;
    assert m == 4 * k + 3;
    SameOut(t, u, k);
    OutNext(u, k);
  }

  lemma DecodingGroup(t: Str, c: Byte, j: nat, x: U32, y: U32, out: Str)
    requires Decoding(t, 3, j, x, out) && Pads(t + [c], |t| + 1) <= 2
    requires y == Wrap32(x * 64) + SextetOf(c)
    ensures
      var u, m, k := t + [c], |t|, if c == PAD then j - 1 else j;
      && k == 3 - Pads(u, m + 1) && y % 0x100_0000 == Joined(u[m - 3], u[m - 2], u[m - 1], u[m])
      && Decoding(u, 0, k, y, out + Ungroup(u[m - 3], u[m - 2], u[m - 1], u[m], k))
  {
    hide Out, Value, SextetOf, Pads, Ungroup, Acceptable, Power, Wrap32, Joined, Decoding;
    DecodingParts(t, 3, j, x, out);
    DecodingValue(t, j, x, out);
    GroupValue(t, c, x, y);
    GroupOut(t, c);
    AcceptStep(t, c);
    var u, m, k := t + [c], |t|, if c == PAD then j - 1 else j;
    DecodingFresh(u, k, y, out + Ungroup(u[m - 3], u[m - 2], u[m - 1], u[m], k));
  }

  lemma DecodingValue(t: Str, j: nat, x: U32, out: Str)
    requires Decoding(t, 3, j, x, out)
    ensures |t| >= 3 && x % Power(3) == Value(t, |t|, 3)
  {}

  lemma DecodingFresh(t: Str, j: nat, x: U32, out: Str)
    requires |t| % 4 == 0 && Pads(t, |t|) <= 2 && j == 3 - Pads(t, |t|) && out == Out(t, |t| / 4)
    ensures Decoding(t, 0, j, x, out)
  {
    hide Out, Pads;
    NoValue(t, |t|);
    PowerZero(x);
  }

  lemma PowerZero(x: nat)
    ensures x % Power(0) == 0
  {}

  lemma NoValue(t: Str, n: nat)
    requires n <= |t|
    ensures Value(t, n, 0) == 0
  {}

  lemma AcceptablePads(t: Str, n: nat)
    requires n <= |t| && Acceptable(t, n)
    ensures Pads(t, n) <= 2
  {}

  lemma PrefixPads(u: Str, i: nat)
    requires i <= |u| && Decodable(u)
    ensures Pads(Strip(u, i), |Strip(u, i)|) <= 2 && |Strip(u, i)| <= |Strip(u, |u|)|
    ensures i < |u| && !Break(u[i]) ==> u[i] < 128 && (DecMap(u[i]) == 64 <==> u[i] == PAD) && DecMap(u[i]) != 127
  {
    hide Strip, Pads, Acceptable;
    StripPrefix(u, i, |u|);
    if !Acceptable(Strip(u, i), |Strip(u, i)|) { BadPrefix(u, i); }
    AcceptablePads(Strip(u, i), |Strip(u, i)|);
    if i < |u| && !Break(u[i]) {
      StripStep(u, i);
      if !Acceptable(Strip(u, i + 1), |Strip(u, i + 1)|) { BadPrefix(u, i + 1); }
      AcceptStep(Strip(u, i), u[i]);
      AlphabetOf(u[i]);
    }
  }

  lemma GroupFits(n: nat, all: nat, p: nat)
    requires n % 4 == 3 && n < all && p <= n / 4 * 3
    ensures p + 3 <= Needed(all)
  {}

  /** The decoding loop of base64_decode. */
  method DecodeText(dst: array<Byte>, src: Str) returns (p: nat)
    requires Decodable(src) && Needed(|Strip(src, |src|)|) <= dst.Length
    modifies dst
    ensures p == |Decoded(Strip(src, |src|))| <= Needed(|Strip(src, |src|)|) && dst[..p] == Decoded(Strip(src, |src|))
    ensures forall k | Needed(|Strip(src, |src|)|) <= k < dst.Length :: dst[k] == old(dst[k])
  {
    hide Strip, Pads, Decodable, Decoding, Out, Needed, InAlphabet, Ungroup;
    var j: nat, n: nat, x: U32 := 3, 0, 0;
    p := 0;
    DecodingStart(src);
    ghost var need := Needed(|Strip(src, |src|)|);
    for i := 0 to |src|
      invariant n < 4 && p <= need <= dst.Length && Decoding(Strip(src, i), n, j, x, dst[..p])
      invariant forall k | need <= k < dst.Length :: dst[k] == old(dst[k])
    {
      StripStep(src, i);
      if src[i] == CR || src[i] == LF { continue; }
      PrefixPads(src, i);
      PrefixPads(src, i + 1);
      ghost var t, c := Strip(src, i), src[i];
      DecodingParts(t, n, j, x, dst[..p]);
      PadsBelow(t, c);
      SextetIs(c);
      ShiftIn(x, SextetOf(c), 0);
      var y: U32 := Wrap32(x * 64) + DecMap(src[i]) % 64;
      if n < 3 { DecodingStep(t, c, n, j, x, y, dst[..p]); } else { DecodingGroup(t, c, j, x, y, dst[..p]); }
      if DecMap(src[i]) == 64 { j := j - 1; }
      x := y;
      n := n + 1;
      if n == 4 {
        n := 0;
        GroupFits(|t|, |Strip(src, |src|)|, p);
        p := StoreGroup(dst, p, x, j, (t + [c])[|t| - 3], (t + [c])[|t| - 2], (t + [c])[|t| - 1], c);
      }
    }
    DecodingParts(Strip(src, |src|), n, j, x, dst[..p]);
  }

  lemma DecodingStart(u: Str)
    ensures Strip(u, 0) == [] && Decoding([], 0, 3, 0, [])
  {
    NothingRead(u);
  }

  lemma DecodingParts(t: Str, n: nat, j: nat, x: U32, out: Str)
    requires Decoding(t, n, j, x, out)
    ensures n == |t| % 4 && j == 3 - Pads(t, |t|) && out == Decoded(t) && |out| <= |t| / 4 * 3
  {}

  lemma PadsBelow(t: Str, c: Byte)
    requires Pads(t + [c], |t| + 1) <= 2
    ensures Pads(t, |t|) <= 2 && (c == PAD ==> Pads(t, |t|) <= 1)
  {
    hide Pads, Acceptable;
    AcceptStep(t, c);
  }

  lemma SextetIs(c: Byte)
    requires c < 128 && DecMap(c) != 127
    ensures DecMap(c) % 64 == SextetOf(c)
  {}

  /** base64_decode. Text of nothing but line breaks leaves the size as it was. */
  method Decode(dst: array<Byte>, dlen: nat, src: Str) returns (status: int, written: nat)
    requires dlen <= dst.Length
    modifies dst
    ensures !Decodable(src) ==> status == INVALID_CHARACTER && written == dlen && dst[..] == old(dst[..])
    ensures Decodable(src) && |Strip(src, |src|)| == 0 ==> status == 0 && written == dlen && dst[..] == old(dst[..])
    ensures Decodable(src) && 0 < |Strip(src, |src|)| && dlen < Needed(|Strip(src, |src|)|) ==>
      status == BUFFER_TOO_SMALL && written == Needed(|Strip(src, |src|)|) && dst[..] == old(dst[..])
    ensures Decodable(src) && 0 < |Strip(src, |src|)| && dlen >= Needed(|Strip(src, |src|)|) ==>
      && status == 0 && written == |Decoded(Strip(src, |src|))| <= dlen && dst[..written] == Decoded(Strip(src, |src|))
      && forall k | Needed(|Strip(src, |src|)|) <= k < dst.Length :: dst[k] == old(dst[k])
  {
    hide Decodable, Strip, Decoded;
    var ok, n := CheckText(src);
    if !ok { return INVALID_CHARACTER, dlen; }
    if n == 0 { return 0, dlen; }
    n := (6 * n + 7) / 8;
    if dlen < n { return BUFFER_TOO_SMALL, n; }
    var p := DecodeText(dst, src);
    return 0, p;
  }
}
