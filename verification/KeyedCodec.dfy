/** encryptInternal and decryptInternal (server_url.cpp): a four-byte key from the password, laid
    over the text byte by byte, with base64 around it. */
module KeyedCodec {
  import opened Bytes
  import opened IndexMask
  import opened Base64

  const BLOCK: nat := 4

  type KeyHash = k: Str | |k| == BLOCK witness [0, 0, 0, 0]

  function XorBits(a: bv8, b: bv8): bv8 { a ^ b }

  function Xor(a: Byte, b: Byte): Byte { XorBits(a as bv8, b as bv8) as nat }

  lemma XorBitsBack(a: bv8, b: bv8)
    ensures XorBits(XorBits(a, b), b) == a
  {
    XorTwice(a, b);
  }

  lemma XorBack(a: Byte, b: Byte)
    ensures Xor(Xor(a, b), b) == a
  {
    hide XorBits;
    XorBitsBack(a as bv8, b as bv8);
    BitsRoundTrip(a);
  }

  /** A char in arithmetic: signed or not, as the platform has it. */
  function CharValue(c: Byte, signedChars: bool): int { if signedChars && c >= 0x80 then c - 0x100 else c }

  /** djb2HashFunction after the first n characters. */
  function Hash(pass: Str, n: nat, signedChars: bool): U32
    requires n <= |pass|
  {
    if n == 0 then 5381
    else
      var before: nat := Hash(pass, n - 1, signedChars);
      Wrap32(before * 33 + CharValue(pass[n - 1], signedChars))
  }

  /** keyGenerate */
  function Key4(pass: Str, signedChars: bool): KeyHash
  {
    var h: nat := Hash(pass, |pass|, signedChars);
    [Xor(h % 0x100, 0xFF), Xor(h / 0x100 % 0x100, 0xFF), Xor(h / 0x1_0000 % 0x100, 0xFF),
     Xor(h / 0x100_0000 % 0x100, 0xFF)]
  }

  function Power33(n: nat): nat { if n == 0 then 1 else 33 * Power33(n - 1) }

  /** The characters from i on, each times as many 33s as characters follow it. */
  function Weighed(s: Str, i: nat, n: nat, signedChars: bool): int
    requires i <= n <= |s|
    decreases n - i
  {
    if i == n then 0 else CharValue(s[i], signedChars) * Power33(n - 1 - i) + Weighed(s, i + 1, n, signedChars)
  }

  lemma {:induction false} WeighedNext(s: Str, i: nat, n: nat, signedChars: bool)
    requires i <= n < |s|
    ensures Weighed(s, i, n + 1, signedChars) == 33 * Weighed(s, i, n, signedChars) + CharValue(s[n], signedChars)
    decreases n - i
  {
    hide CharValue;
    if i < n {
      WeighedNext(s, i + 1, n, signedChars);
      var c := CharValue(s[i], signedChars);
      assert c * Power33(n - i) == 33 * (c * Power33(n - 1 - i));
    } else {
      assert Power33(0) == 1;
      assert Weighed(s, n + 1, n + 1, signedChars) == 0 == Weighed(s, n, n, signedChars);
    }
  }

  /** The hash in one formula: a number in base 33, with 5381 in front, kept in 32 bits. */
  lemma {:induction false} HashIs(s: Str, n: nat, signedChars: bool)
    requires n <= |s|
    ensures Hash(s, n, signedChars) == Wrap32(5381 * Power33(n) + Weighed(s, 0, n, signedChars))
  {
    hide CharValue, Wrap32, Power33, Weighed;
    if n == 0 {
      NothingWeighed(s, signedChars);
      SmallWrap();
    } else {
      HashIs(s, n - 1, signedChars);
      WeighedNext(s, 0, n - 1, signedChars);
      Powered(n);
      WrapTimes33(
        5381 * Power33(n - 1) + Weighed(s, 0, n - 1, signedChars), CharValue(s[n - 1], signedChars));
    }
  }

  lemma Powered(n: nat)
    requires n > 0
    ensures Power33(n) == 33 * Power33(n - 1)
  {}

  lemma NothingWeighed(s: Str, signedChars: bool)
    ensures Power33(0) == 1 && Weighed(s, 0, 0, signedChars) == 0
  {}

  lemma SmallWrap()
    ensures Wrap32(5381) == 5381
  {}

  lemma WrapTimes33(n: int, c: int)
    ensures Wrap32(Wrap32(n) as int * 33 + c) == Wrap32(n * 33 + c)
  {
    var q := n / 0x1_0000_0000;
    assert n * 33 + c == (Wrap32(n) as int * 33 + c) + 0x1_0000_0000 * (33 * q);
    WrapMultiple(Wrap32(n) as int * 33 + c, 33 * q);
  }

  lemma WrapMultiple(n: int, k: int)
    ensures Wrap32(n + 0x1_0000_0000 * k) == Wrap32(n)
  {}

  /** The key is the little-endian complement of the hash. */
  lemma KeyIsComplement(pass: Str, signedChars: bool)
    ensures
      var key := Key4(pass, signedChars);
      key[0] + 0x100 * (key[1] as int) + 0x1_0000 * (key[2] as int) + 0x100_0000 * (key[3] as int)
      == 0xFFFF_FFFF - Hash(pass, |pass|, signedChars)
  {
    hide Hash, Xor;
    var h: nat := Hash(pass, |pass|, signedChars);
    XorAll(h % 0x100);
    XorAll(h / 0x100 % 0x100);
    XorAll(h / 0x1_0000 % 0x100);
    XorAll(h / 0x100_0000 % 0x100);
    BytesOf(h);
  }

  lemma BytesOf(h: nat)
    requires h < 0x1_0000_0000
    ensures h == h % 0x100 + 0x100 * (h / 0x100 % 0x100) + 0x1_0000 * (h / 0x1_0000 % 0x100)
      + 0x100_0000 * (h / 0x100_0000 % 0x100)
  {
    assert h / 0x1_0000 == h / 0x100 / 0x100 && h / 0x100_0000 == h / 0x1_0000 / 0x100;
  }

  lemma XorAll(b: Byte)
    ensures Xor(b, 0xFF) == 0xFF - b
  {
    hide XorBits;
    XorBitsAll(b as bv8);
    BitsRoundTrip(b);
  }

  lemma XorBitsAll(v: bv8)
    ensures XorBits(v, 0xFF) as int == 0xFF - v as int
  {
    assert v ^ 0xFF == 0xFF - v;
  }

  function XorKey(s: Str, key: KeyHash): (t: Str)
    ensures |t| == |s|
  {
    seq(|s|, i requires 0 <= i < |s| => Xor(s[i], key[i % BLOCK]))
  }

  /** Each block of four is laid under the key from the key's first byte on. */
  lemma XorKeyAt(s: Str, key: KeyHash, q: nat, r: nat)
    requires r < 4 && 4 * q + r < |s|
    ensures XorKey(s, key)[4 * q + r] as bv8 == (s[4 * q + r] as bv8) ^ (key[r] as bv8)
  {
    assert (4 * q + r) % BLOCK == r;
    BitsKept((s[4 * q + r] as bv8) ^ (key[r] as bv8));
  }

  lemma BitsKept(v: bv8)
    ensures (v as nat) as bv8 == v
  {}

  lemma XorKeyBack(s: Str, key: KeyHash)
    ensures XorKey(XorKey(s, key), key) == s
  {
    hide Xor;
    forall i | 0 <= i < |s|
      ensures Xor(Xor(s[i], key[i % BLOCK]), key[i % BLOCK]) == s[i]
    {
      XorBack(s[i], key[i % BLOCK]);
    }
  }

  function Encrypted(raw: Str, key: KeyHash): Str { Encoded(XorKey(raw, key)) }

  lemma CharOfGroup(s: Str, g: nat, q: nat)
    requires 3 * g < |s| && q < 4
    ensures GroupChar(s, g, q) != 0 && !Break(GroupChar(s, g, q))
  {}

  /** Encoded text has neither NUL nor line breaks. */
  lemma EncodedPlain(s: Str)
    ensures NulFree(Encoded(s)) && forall i | 0 <= i < |Encoded(s)| :: !Break(Encoded(s)[i])
  {
    hide GroupChar, Break;
    forall p | 0 <= p < |Encoded(s)|
      ensures Encoded(s)[p] != 0 && !Break(Encoded(s)[p])
    {
      CharOfGroup(s, p / 4, p % 4);
    }
  }

  lemma {:induction false} StripPlain(u: Str, n: nat)
    requires n <= |u| && forall i | 0 <= i < n :: !Break(u[i])
    ensures Strip(u, n) == u[..n]
  {
    if n > 0 {
      StripPlain(u, n - 1);
      assert u[..n] == u[..n - 1] + [u[n - 1]];
    }
  }

  /** Decrypting what was encrypted under the same password gives the bytes back. */
  lemma DecryptsBack(raw: Str, key: KeyHash)
    ensures
      var enc := Encrypted(raw, key);
      && NulFree(enc) && Decodable(enc) && |Strip(enc, |enc|)| == |enc| == EncodedSize(|raw|)
      && XorKey(Decoded(Strip(enc, |enc|)), key) == raw
  {
    hide XorKey, Encoded, Strip, Decoded, Acceptable;
    var enc := Encrypted(raw, key);
    EncodedPlain(XorKey(raw, key));
    StripPlain(enc, |enc|);
    assert enc[..|enc|] == enc;
    DecodedEncoded(XorKey(raw, key));
    XorKeyBack(raw, key);
    assert Wrapped(enc, |enc|) by { assert forall k | 0 <= k < |enc| :: !Break(enc[k]); }
  }

  // ---- the routines

  /** djb2HashFunction on a C string. */
  method Djb2Hash(str: Str, signedChars: bool) returns (hash: U32)
    requires Terminated(str, 0)
    ensures hash == Hash(CString(str, 0), |CString(str, 0)|, signedChars)
  {
    hide Hash, CharValue, CString;
    CStringAt(str, 0);
    ghost var s := CString(str, 0);
    HashStart(s, signedChars);
    assert forall k | 0 <= k < 0 + |s| :: str[k] == s[k - 0] != 0;
    hash := 5381;
    var i := 0;
    while str[i] != 0
      invariant i <= |s| < |str| && hash == Hash(s, i, signedChars)
      decreases |s| - i
    {
      var before: nat := hash;
      hash := Wrap32(Wrap32(before * 32) + before + CharValue(str[i], signedChars));
      HashStep(s, i, signedChars);
      WrapSum(before, CharValue(str[i], signedChars));
      i := i + 1;
    }
  }

  lemma HashStart(s: Str, signedChars: bool)
    ensures Hash(s, 0, signedChars) == 5381
  {}

  lemma HashStep(s: Str, i: nat, signedChars: bool)
    requires i < |s|
    ensures Hash(s, i + 1, signedChars) == Wrap32((Hash(s, i, signedChars) as int) * 33 + CharValue(s[i], signedChars))
  {}

  lemma WrapSum(x: nat, c: int)
    ensures Wrap32(Wrap32(x * 32) + x + c) == Wrap32(x * 33 + c)
  {}

  /** The block loops: key byte i over byte i of each block of four, the last block being shorter. */
  method XorBlocks(a: array<Byte>, n: nat, key: KeyHash)
    requires n <= a.Length
    modifies a
    ensures a[..n] == XorKey(old(a[..n]), key)
    ensures forall k | n <= k < a.Length :: a[k] == old(a[k])
  {
    hide Xor;
    var pos := 0;
    while pos < n
      invariant pos <= n && (pos % BLOCK == 0 || pos == n)
      invariant forall k | 0 <= k < pos :: a[k] == Xor(old(a[k]), key[k % BLOCK])
      invariant forall k | pos <= k < a.Length :: a[k] == old(a[k])
    {
      var byteRead := if (n - pos) / BLOCK > 0 then BLOCK else (n - pos) % BLOCK;
      for i := 0 to byteRead
        invariant forall k | 0 <= k < pos + i :: a[k] == Xor(old(a[k]), key[k % BLOCK])
        invariant forall k | pos + i <= k < a.Length :: a[k] == old(a[k])
      {
        assert (pos + i) % BLOCK == i;
        a[pos + i] := Xor(a[pos + i], key[i]);
      }
      pos := pos + byteRead;
    }
  }

  method GenerateKey(pass: Str, signedChars: bool) returns (key: KeyHash)
    requires Terminated(pass, 0)
    ensures key == Key4(CString(pass, 0), signedChars)
  {
    hide Xor, Hash;
    var h := Djb2Hash(pass, signedChars);
    var keyHash: array<Byte> := new Byte[4][h % 0x100, h / 0x100 % 0x100, h / 0x1_0000 % 0x100, h / 0x100_0000 % 0x100];
    ghost var bytes := keyHash[..];
    for i := 0 to 4
      invariant forall k | 0 <= k < i :: keyHash[k] == Xor(bytes[k], 0xFF)
      invariant forall k | i <= k < 4 :: keyHash[k] == bytes[k]
    {
      keyHash[i] := Xor(keyHash[i], 0xFF);
    }
    key := keyHash[..];
  }

  /** encryptInternal: the text is overwritten on the way. The buffer is never too small for its
      own size test; an empty text writes nothing, not even a NUL. */
  method EncryptInternal(rawStr: array<Byte>, pass: Str, dest: array<Byte>, signedChars: bool) returns (error: int)
    requires Terminated(rawStr[..], 0) && Terminated(pass, 0)
    requires dest != rawStr && dest.Length >= EncodedSize(StrLen(rawStr[..], 0)) + 1
    modifies rawStr, dest
    ensures error == 0
    ensures
      var raw := CString(old(rawStr[..]), 0);
      var enc := Encrypted(raw, Key4(CString(pass, 0), signedChars));
      if |raw| == 0 then dest[..] == old(dest[..])
      else At(dest[..], 0, enc) && |enc| < dest.Length && dest[|enc|] == 0
  {
    hide Encoded, XorKey, Key4, Xor;
    ghost var raw := CString(rawStr[..], 0);
    var keyHash := GenerateKey(pass, signedChars);
    TerminatedStrLen(rawStr[..], 0);
    var srcLen := StrLen(rawStr[..], 0);
    assert raw == rawStr[..srcLen];
    XorBlocks(rawStr, srcLen, keyHash);
    var dstLen := 8 * srcLen / 6;
    SizeTest(srcLen);
    if 8 * srcLen - dstLen * 6 == 2 { dstLen := dstLen + 3; }
    else if 8 * srcLen - dstLen * 6 == 4 { dstLen := dstLen + 2; }
    dstLen := dstLen + 1;
    var status, written := Encode(dest, dstLen, rawStr[..srcLen]);
    if status != 0 { return -1; }
    assert |raw| > 0 ==> dest[..written] == Encrypted(raw, keyHash);
    return 0;
  }

  lemma NeededFits(n: nat)
    ensures Needed(n) <= n
  {}

  /** decryptInternal */
  method DecryptInternal(encStr: Str, pass: Str, dest: array<Byte>, signedChars: bool) returns (r: int)
    requires Terminated(encStr, 0) && Terminated(pass, 0) && dest.Length >= StrLen(encStr, 0)
    modifies dest
    ensures
      var enc, key := CString(encStr, 0), Key4(CString(pass, 0), signedChars);
      if |enc| == 0 then r == 0 && dest[..] == old(dest[..])
      else if !Decodable(enc) then r == -1 && dest[..] == old(dest[..])
      else if |Strip(enc, |enc|)| == 0 then r == |enc| && dest[..|enc|] == XorKey(old(dest[..|enc|]), key)
      else
        && r == |Decoded(Strip(enc, |enc|))| <= dest.Length && dest[..r] == XorKey(Decoded(Strip(enc, |enc|)), key)
        && (r < |enc| ==> dest[r] == 0)
  {
    hide Decoded, XorKey, Key4, Decodable, Strip, Needed;
    ghost var enc := CString(encStr, 0);
    var keyHash := GenerateKey(pass, signedChars);
    TerminatedStrLen(encStr, 0);
    var srcLen := StrLen(encStr, 0);
    if srcLen == 0 { return 0; }
    assert enc == encStr[..srcLen];
    NeededFits(|Strip(enc, |enc|)|);
    StripShorter(enc);
    var status, dstLen := Decode(dest, srcLen, encStr[..srcLen]);
    if status != 0 { return -1; }
    if dstLen < srcLen { dest[dstLen] := 0; }
    XorBlocks(dest, dstLen, keyHash);
    return dstLen;
  }

  lemma StripShorter(u: Str)
    ensures |Strip(u, |u|)| <= |u|
  {}

  /** What encryptInternal leaves in memory, read by decryptInternal under the same key: the third
      case of its contract with the raw text as result, and room for the final NUL. */
  lemma EncryptedReadsBack(mem: Str, raw: Str, key: KeyHash)
    requires |raw| > 0 && At(mem, 0, Encrypted(raw, key))
    requires |Encrypted(raw, key)| < |mem| && mem[|Encrypted(raw, key)|] == 0
    ensures
      var enc := CString(mem, 0);
      && Terminated(mem, 0) && Decodable(enc) && |Strip(enc, |enc|)| > 0 && |raw| < |enc|
      && XorKey(Decoded(Strip(enc, |enc|)), key) == raw
  {
    hide Decodable, Strip, Decoded, XorKey, Encrypted;
    DecryptsBack(raw, key);
    CStringIs(mem, 0, Encrypted(raw, key));
  }
}
