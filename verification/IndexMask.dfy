/** The byte mask over index files: a 32-byte key and eight bit twists that repeat with the
    position. Writing masks a whole file from position 0; reading may go chunk by chunk. */
module IndexMask {
  import opened Bytes

  const PWD_LEN: nat := 32

  const DISK_KEYS: seq<bv8> := [
    0x68, 0x40, 0xFA, 0x9F, 0x01, 0x7C, 0x2E, 0x66, 0x82, 0x99, 0x08, 0xDF, 0x4B, 0xB5, 0x2D, 0x60,
    0x7B, 0x21, 0xAB, 0x88, 0x02, 0xC2, 0x18, 0xE9, 0x87, 0xDA, 0x28, 0xC9, 0x20, 0x33, 0xD2, 0xA5]

  function Key(step: nat): bv8
    requires step < PWD_LEN
  {
    DISK_KEYS[step]
  }

  /** PasswordByteEncryptDecrypt */
  function Twist(v: bv8, step: nat, pwd: bv8, encrypt: bool): bv8
  {
    match step % 8
    case 0 => (!v & 0xC0) | (v & 0x30) | (!v & 0x0F)
    case 1 => (!v & 0xC0) | (v & 0x20) | (!v & 0x18) | (v & 0x07)
    case 2 => if encrypt then v + pwd else v - pwd
    case 3 => (v & 0x80) | (!v & 0x60) | (v & 0x1C) | (v & 0x03)
    case 4 => (!v & 0xF0) | (v & 0x0F)
    case 5 => (!v & 0x80) | (v & 0x78) | (!v & 0x07)
    case 6 => (!v & 0xFC) | (!v & 0x03)
    case 7 => if encrypt then v - pwd else v + pwd
  }

  /** In one direction as in the other, six of the steps flip fixed bits ... */
  lemma TwistFlips(v: bv8, step: nat, encrypt: bool)
    ensures step % 8 == 0 ==> Twist(v, step, 32, encrypt) == v ^ 0xCF
    ensures step % 8 == 1 ==> Twist(v, step, 32, encrypt) == v ^ 0xD8
    ensures step % 8 == 3 ==> Twist(v, step, 32, encrypt) == v ^ 0x60
    ensures step % 8 == 4 ==> Twist(v, step, 32, encrypt) == v ^ 0xF0
    ensures step % 8 == 5 ==> Twist(v, step, 32, encrypt) == v ^ 0x87
    ensures step % 8 == 6 ==> Twist(v, step, 32, encrypt) == v ^ 0xFF
  {}

  /** ... and two add the key's length or take it away: masking adds it at step 2, unmasking at step 7. */
  lemma TwistAdds(v: bv8, step: nat, encrypt: bool)
    requires step % 8 == 2 || step % 8 == 7
    ensures Twist(v, step, 32, encrypt) as int
      == if encrypt == (step % 8 == 2) then (v as int + 32) % 0x100 else (v as int - 32) % 0x100
  {
    AddsUp(v);
    TakesAway(v);
  }

  lemma AddsUp(v: bv8)
    ensures (v + 32) as int == (v as int + 32) % 0x100
  {
    assert (v + 32) as int == if v < 224 then v as int + 32 else v as int - 224;
  }

  lemma TakesAway(v: bv8)
    ensures (v - 32) as int == (v as int - 32) % 0x100
  {
    assert (v - 32) as int == if v < 32 then v as int + 224 else v as int - 32;
  }

  function MaskBits(v: bv8, step: nat): bv8
    requires step < PWD_LEN
  {
    Twist(v ^ Key(step), step, 32, true)
  }

  function UnmaskBits(v: bv8, step: nat): bv8
    requires step < PWD_LEN
  {
    Twist(v, step, 32, false) ^ Key(step)
  }

  function MaskByte(b: Byte, pos: nat): Byte { MaskBits(b as bv8, pos % PWD_LEN) as nat }

  function UnmaskByte(b: Byte, pos: nat): Byte { UnmaskBits(b as bv8, pos % PWD_LEN) as nat }

  lemma InvertFirst(v: bv8, step: nat)
    requires step % 8 == 0 || step % 8 == 1
    ensures Twist(Twist(v, step, 32, true), step, 32, false) == v
    ensures Twist(Twist(v, step, 32, false), step, 32, true) == v
  {}

  lemma InvertSums(v: bv8, step: nat)
    requires step % 8 == 2 || step % 8 == 7
    ensures Twist(Twist(v, step, 32, true), step, 32, false) == v
    ensures Twist(Twist(v, step, 32, false), step, 32, true) == v
  {}

  lemma InvertMiddle(v: bv8, step: nat)
    requires step % 8 == 3 || step % 8 == 4
    ensures Twist(Twist(v, step, 32, true), step, 32, false) == v
    ensures Twist(Twist(v, step, 32, false), step, 32, true) == v
  {}

  lemma InvertLast(v: bv8, step: nat)
    requires step % 8 == 5 || step % 8 == 6
    ensures Twist(Twist(v, step, 32, true), step, 32, false) == v
    ensures Twist(Twist(v, step, 32, false), step, 32, true) == v
  {}

  lemma TwistInverts(v: bv8, step: nat)
    ensures Twist(Twist(v, step, 32, true), step, 32, false) == v
    ensures Twist(Twist(v, step, 32, false), step, 32, true) == v
  {
    hide Twist;
    match step % 8
    case 0 => InvertFirst(v, step);
    case 1 => InvertFirst(v, step);
    case 3 => InvertMiddle(v, step);
    case 4 => InvertMiddle(v, step);
    case 5 => InvertLast(v, step);
    case 6 => InvertLast(v, step);
    case _ => InvertSums(v, step);
  }

  lemma UnmaskMask(v: bv8, step: nat)
    requires step < PWD_LEN
    ensures UnmaskBits(MaskBits(v, step), step) == v
  {
    hide Twist, Key;
    var w := v ^ Key(step);
    TwistInverts(w, step);
    XorTwice(v, Key(step));
  }

  lemma MaskUnmask(v: bv8, step: nat)
    requires step < PWD_LEN
    ensures MaskBits(UnmaskBits(v, step), step) == v
  {
    hide Twist, Key;
    var w := Twist(v, step, 32, false);
    TwistInverts(v, step);
    XorTwice(w, Key(step));
  }

  lemma XorTwice(v: bv8, key: bv8)
    ensures (v ^ key) ^ key == v
  {}

  lemma BitsRoundTrip(b: Byte)
    ensures (b as bv8) as nat == b
  {
    var wide: bv16 := b as bv16;
    assert wide as nat == b;
  }

  /** At each position the mask is a bijection on bytes. */
  lemma MaskByteInverts(b: Byte, pos: nat)
    ensures UnmaskByte(MaskByte(b, pos), pos) == b
    ensures MaskByte(UnmaskByte(b, pos), pos) == b
  {
    hide MaskBits, UnmaskBits;
    UnmaskMask(b as bv8, pos % PWD_LEN);
    MaskUnmask(b as bv8, pos % PWD_LEN);
    BitsRoundTrip(b);
  }

  function Mask(s: Str): Str
  {
    seq(|s|, i requires 0 <= i < |s| => MaskByte(s[i], i))
  }

  function Unmask(s: Str, pos: nat): Str
  {
    seq(|s|, i requires 0 <= i < |s| => UnmaskByte(s[i], i + pos))
  }

  /** What a zero byte becomes on disk. */
  function ZeroOnDisk(i: nat): bv8
    requires i < PWD_LEN
  {
    var onDisk: seq<bv8> := [
      0xA7, 0x98, 0x1A, 0xFF, 0xF1, 0xFB, 0xD1, 0x46, 0x4D, 0x41, 0x28, 0xBF, 0xBB, 0x32, 0xD2, 0x40,
      0xB4, 0xF9, 0xCB, 0xE8, 0xF2, 0x45, 0xE7, 0xC9, 0x48, 0x02, 0x48, 0xA9, 0xD0, 0xB4, 0x2D, 0x85];
    onDisk[i]
  }

  lemma ZerosMasked(pos: nat)
    ensures MaskByte(0, pos) == ZeroOnDisk(pos % PWD_LEN) as nat
  {
    hide MaskBits, ZeroOnDisk;
    ZeroMasked(pos % PWD_LEN);
  }

  lemma ZeroMasked(i: nat)
    requires i < PWD_LEN
    ensures MaskBits(0, i) == ZeroOnDisk(i)
  {
    hide MaskBits;
    if i < 8 { ZerosTo8(); } else if i < 16 { ZerosTo16(); } else if i < 24 { ZerosTo24(); } else { ZerosTo32(); }
  }

  lemma ZeroFromKey(i: nat)
    requires i < PWD_LEN
    ensures
      var key := Key(i);
      MaskBits(0, i) == match i % 8
        case 0 => key ^ 0xCF case 1 => key ^ 0xD8 case 2 => key + 32 case 3 => key ^ 0x60
        case 4 => key ^ 0xF0 case 5 => key ^ 0x87 case 6 => key ^ 0xFF case 7 => key - 32
  {
    hide Key;
    assert 0 ^ Key(i) == Key(i);
  }

  lemma ZerosTo8()
    ensures MaskBits(0, 0) == 0xA7 && MaskBits(0, 1) == 0x98 && MaskBits(0, 2) == 0x1A && MaskBits(0, 3) == 0xFF
    ensures MaskBits(0, 4) == 0xF1 && MaskBits(0, 5) == 0xFB && MaskBits(0, 6) == 0xD1 && MaskBits(0, 7) == 0x46
  {
    hide MaskBits, Key;
    KeysTo4();
    KeysTo8();
    ZeroFromKey(0); ZeroFromKey(1); ZeroFromKey(2); ZeroFromKey(3);
    ZeroFromKey(4); ZeroFromKey(5); ZeroFromKey(6); ZeroFromKey(7);
  }

  lemma KeysTo4()
    ensures Key(0) == 0x68 && Key(1) == 0x40
    ensures Key(2) == 0xFA && Key(3) == 0x9F
  {}

  lemma KeysTo8()
    ensures Key(4) == 0x01 && Key(5) == 0x7C && Key(6) == 0x2E && Key(7) == 0x66
  {}

  lemma ZerosTo16()
    ensures MaskBits(0, 8) == 0x4D && MaskBits(0, 9) == 0x41 && MaskBits(0, 10) == 0x28 && MaskBits(0, 11) == 0xBF
    ensures MaskBits(0, 12) == 0xBB && MaskBits(0, 13) == 0x32 && MaskBits(0, 14) == 0xD2 && MaskBits(0, 15) == 0x40
  {
    hide MaskBits, Key;
    KeysTo16();
    ZeroFromKey(8); ZeroFromKey(9); ZeroFromKey(10); ZeroFromKey(11);
    ZeroFromKey(12); ZeroFromKey(13); ZeroFromKey(14); ZeroFromKey(15);
  }

  lemma KeysTo16()
    ensures Key(8) == 0x82 && Key(9) == 0x99 && Key(10) == 0x08 && Key(11) == 0xDF
    ensures Key(12) == 0x4B && Key(13) == 0xB5 && Key(14) == 0x2D && Key(15) == 0x60
  {}

  lemma ZerosTo24()
    ensures MaskBits(0, 16) == 0xB4 && MaskBits(0, 17) == 0xF9 && MaskBits(0, 18) == 0xCB && MaskBits(0, 19) == 0xE8
    ensures MaskBits(0, 20) == 0xF2 && MaskBits(0, 21) == 0x45 && MaskBits(0, 22) == 0xE7 && MaskBits(0, 23) == 0xC9
  {
    hide MaskBits, Key;
    KeysTo24();
    ZeroFromKey(16); ZeroFromKey(17); ZeroFromKey(18); ZeroFromKey(19);
    ZeroFromKey(20); ZeroFromKey(21); ZeroFromKey(22); ZeroFromKey(23);
  }

  lemma KeysTo24()
    ensures Key(16) == 0x7B && Key(17) == 0x21 && Key(18) == 0xAB && Key(19) == 0x88
    ensures Key(20) == 0x02 && Key(21) == 0xC2 && Key(22) == 0x18 && Key(23) == 0xE9
  {}

  lemma ZerosTo32()
    ensures MaskBits(0, 24) == 0x48 && MaskBits(0, 25) == 0x02 && MaskBits(0, 26) == 0x48 && MaskBits(0, 27) == 0xA9
    ensures MaskBits(0, 28) == 0xD0 && MaskBits(0, 29) == 0xB4 && MaskBits(0, 30) == 0x2D && MaskBits(0, 31) == 0x85
  {
    hide MaskBits, Key;
    KeysTo32();
    ZeroFromKey(24); ZeroFromKey(25); ZeroFromKey(26); ZeroFromKey(27);
    ZeroFromKey(28); ZeroFromKey(29); ZeroFromKey(30); ZeroFromKey(31);
  }

  lemma KeysTo32()
    ensures Key(24) == 0x87 && Key(25) == 0xDA && Key(26) == 0x28 && Key(27) == 0xC9
    ensures Key(28) == 0x20 && Key(29) == 0x33 && Key(30) == 0xD2 && Key(31) == 0xA5
  {}

  /** A masked file is read back as it was; every file is some file's masked form. */
  lemma MaskInverts(s: Str)
    ensures Unmask(Mask(s), 0) == s
    ensures Mask(Unmask(s, 0)) == s
  {
    forall i | 0 <= i < |s|
      ensures UnmaskByte(MaskByte(s[i], i), i) == s[i] && MaskByte(UnmaskByte(s[i], i), i) == s[i]
    {
      MaskByteInverts(s[i], i);
    }
    assert forall i | 0 <= i < |s| :: Unmask(Mask(s), 0)[i] == s[i];
    assert forall i | 0 <= i < |s| :: Mask(Unmask(s, 0))[i] == s[i];
  }

  /** The position counts modulo the key length only, so its 32-bit wrap is harmless. */
  lemma PositionWraps(b: Byte, i: nat, pos: nat)
    ensures UnmaskByte(b, Wrap32(i + Wrap32(pos))) == UnmaskByte(b, i + pos)
  {
    hide UnmaskBits;
    WrapModulo(i, pos);
  }

  lemma WrapModulo(i: nat, pos: nat)
    ensures Wrap32(i + Wrap32(pos)) % PWD_LEN == (i + pos) % PWD_LEN
  {
    WrapLoses(pos);
    WrapLoses(i + Wrap32(pos));
    assert (i + pos) - (i + Wrap32(pos)) == PWD_LEN * (0x800_0000 * (pos / 0x1_0000_0000));
    SameModulo(i + Wrap32(pos), i + pos, 0x800_0000 * (pos / 0x1_0000_0000));
    SameModulo(Wrap32(i + Wrap32(pos)), i + Wrap32(pos), 0x800_0000 * ((i + Wrap32(pos)) / 0x1_0000_0000));
  }

  lemma WrapLoses(n: nat)
    ensures n == Wrap32(n) + PWD_LEN * (0x800_0000 * (n / 0x1_0000_0000))
  {}

  lemma SameModulo(a: nat, b: nat, k: nat)
    requires b == a + PWD_LEN * k
    ensures a % PWD_LEN == b % PWD_LEN
  {
    assert b == PWD_LEN * (a / PWD_LEN + k) + a % PWD_LEN;
  }

  function Concat(chunks: seq<Str>): Str
  {
    if |chunks| == 0 then [] else chunks[0] + Concat(chunks[1..])
  }

  /** Unmasking chunks one after the other, each at offset 0, with the running position. */
  function UnmaskChunks(chunks: seq<Str>, pos: U32): Str
  {
    if |chunks| == 0 then []
    else Unmask(chunks[0], pos) + UnmaskChunks(chunks[1..], Wrap32(pos + |chunks[0]|))
  }

  lemma UnmaskAppend(a: Str, b: Str, pos: nat)
    ensures Unmask(a + b, pos) == Unmask(a, pos) + Unmask(b, pos + |a|)
  {
    hide UnmaskByte;
  }

  lemma UnmaskWraps(s: Str, pos: nat)
    ensures Unmask(s, Wrap32(pos)) == Unmask(s, pos)
  {
    hide UnmaskBits;
    forall i | 0 <= i < |s|
      ensures UnmaskByte(s[i], i + Wrap32(pos)) == UnmaskByte(s[i], i + pos)
    {
      WrapModulo(i, pos);
      WrapModulo(i, Wrap32(pos));
    }
  }

  lemma UnmaskNothing(pos: nat)
    ensures Unmask([], pos) == []
  {}

  /** However a file is cut into chunks, the chunks unmask to what the whole unmasks to. */
  lemma {:induction false} UnmaskStreams(chunks: seq<Str>, pos: U32)
    ensures UnmaskChunks(chunks, pos) == Unmask(Concat(chunks), pos)
  {
    hide Unmask, Wrap32;
    if |chunks| == 0 {
      UnmaskNothing(pos);
    } else {
      var rest := Concat(chunks[1..]);
      UnmaskStreams(chunks[1..], Wrap32(pos + |chunks[0]|));
      UnmaskWraps(rest, pos + |chunks[0]|);
      UnmaskAppend(chunks[0], rest, pos);
    }
  }

  class Masker {
    /** iPasswordStreamPos; an int in the source, only ever added to unsigned 32-bit values. */
    var streamPos: U32

    constructor ()
      ensures streamPos == 0
    {
      streamPos := 0;
    }

    /** The two steps of the loop body. */
    static function Step(b: Byte, pos: nat, encrypt: bool): Byte
    {
      var step := pos % PWD_LEN;
      if encrypt then Twist((b as bv8) ^ Key(step), step, 32, true) as nat
      else (Twist(b as bv8, step, 32, false) ^ Key(step)) as nat
    }

    static lemma StepMasks(b: Byte, pos: nat)
      ensures Step(b, pos, true) == MaskByte(b, pos) && Step(b, pos, false) == UnmaskByte(b, pos)
    {
      hide Twist, Key;
    }

    /** PasswordMaskBytesIdx */
    method MaskBytes(a: array<Byte>, offset: U32, sz: U32, encrypt: bool)
      requires offset + sz <= a.Length < 0x1_0000_0000
      modifies a, this
      ensures forall i | 0 <= i < a.Length ::
        a[i] == if !(offset <= i < offset + sz) then old(a[i])
                else if encrypt then MaskByte(old(a[i]), i)
                else UnmaskByte(old(a[i]), i + old(streamPos))
      ensures streamPos == if encrypt then old(streamPos) else Wrap32(old(streamPos) + offset + sz)
    {
      hide Step, MaskByte, UnmaskByte;
      var length := Wrap32(offset + sz);
      if encrypt {
        for i := offset to length
          invariant streamPos == old(streamPos)
          invariant forall k | offset <= k < i :: a[k] == MaskByte(old(a[k]), k)
          invariant forall k | 0 <= k < a.Length && !(offset <= k < i) :: a[k] == old(a[k])
        {
          StepMasks(a[i], i);
          a[i] := Step(a[i], i, true);
        }
      } else {
        for i := offset to length
          invariant streamPos == old(streamPos)
          invariant forall k | offset <= k < i :: a[k] == UnmaskByte(old(a[k]), k + streamPos)
          invariant forall k | 0 <= k < a.Length && !(offset <= k < i) :: a[k] == old(a[k])
        {
          PositionWraps(a[i], i, streamPos);
          StepMasks(a[i], Wrap32(i + streamPos));
          a[i] := Step(a[i], Wrap32(i + streamPos), false);
        }
        streamPos := Wrap32(streamPos + length);
      }
    }
  }

  /** The buffer write_file masks. */
  method MaskWhole(raw: Str) returns (file: Str)
    requires |raw| < 0x1_0000_0000
    ensures file == Mask(raw)
  {
    hide MaskByte;
    var pmem := new Byte[|raw|](i requires 0 <= i < |raw| => raw[i]);
    var masker := new Masker();
    masker.MaskBytes(pmem, 0, pmem.Length, true);
    file := pmem[..];
  }

  /** The buffer parse_file and parse_data unmask. */
  method UnmaskWhole(file: Str) returns (mem: Str)
    requires |file| < 0x1_0000_0000
    ensures mem == Unmask(file, 0)
  {
    hide UnmaskByte;
    var pMem := new Byte[|file|](i requires 0 <= i < |file| => file[i]);
    var masker := new Masker();
    masker.MaskBytes(pMem, 0, pMem.Length, false);
    mem := pMem[..];
  }
}
