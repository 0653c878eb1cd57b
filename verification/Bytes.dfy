/** Byte strings as the C code sees them: NUL-terminated runs inside a larger memory. */
module Bytes {
  type Byte = x: nat | x < 0x100
  type Str = seq<Byte>

  type U16 = x: nat | x < 0x1_0000
  type U32 = x: nat | x < 0x1_0000_0000

  /** The value an unsigned 16-bit (32-bit) assignment keeps of n. */
  function Wrap16(n: int): U16 { n % 0x1_0000 }
  function Wrap32(n: int): U32 { n % 0x1_0000_0000 }

  ghost predicate NulFree(s: Str) { forall i | 0 <= i < |s| :: s[i] != 0 }

  /** strlen(mem + off), cut off at the end of mem. */
  function StrLen(mem: Str, off: nat): (n: nat)
    ensures off <= |mem| ==> off + n <= |mem|
    decreases |mem| - off
  {
    if off >= |mem| || mem[off] == 0 then 0 else 1 + StrLen(mem, off + 1)
  }

  lemma {:induction false} StrLenStops(mem: Str, off: nat)
    requires off <= |mem|
    ensures forall i | off <= i < off + StrLen(mem, off) :: mem[i] != 0
    ensures off + StrLen(mem, off) < |mem| ==> mem[off + StrLen(mem, off)] == 0
    decreases |mem| - off
  {
    if off < |mem| && mem[off] != 0 {
      StrLenStops(mem, off + 1);
    }
  }

  /** A NUL follows off inside mem: the C string at off is readable. */
  ghost predicate Terminated(mem: Str, off: nat) { exists e | off <= e < |mem| :: mem[e] == 0 }

  lemma TerminatedStrLen(mem: Str, off: nat)
    requires Terminated(mem, off)
    ensures off + StrLen(mem, off) < |mem| && mem[off + StrLen(mem, off)] == 0
  {
    StrLenStops(mem, off);
  }

  /** len elements from position `from` on; slices are avoided in definitions that many proofs see. */
  function Sub<T>(s: seq<T>, from: nat, len: nat): seq<T>
    requires from + len <= |s|
  {
    seq(len, k requires 0 <= k < len => s[from + k])
  }

  function CString(mem: Str, off: nat): Str
  {
    if off <= |mem| then Sub(mem, off, StrLen(mem, off)) else []
  }

  lemma CStringNulFree(mem: Str, off: nat)
    ensures NulFree(CString(mem, off))
  {
    if off <= |mem| { StrLenStops(mem, off); }
  }

  /** mem holds s from off on. */
  ghost predicate At(mem: Str, off: nat, s: Str)
  {
    off + |s| <= |mem| && forall i | off <= i < off + |s| :: mem[i] == s[i - off]
  }

  lemma SubAt(mem: Str, off: nat, len: nat)
    requires off + len <= |mem|
    ensures At(mem, off, Sub(mem, off, len)) && |Sub(mem, off, len)| == len
    ensures mem[off..off + len] == Sub(mem, off, len)
  {}

  lemma SubIs(mem: Str, off: nat, s: Str)
    requires At(mem, off, s)
    ensures Sub(mem, off, |s|) == s
  {
    forall k | 0 <= k < |s|
      ensures Sub(mem, off, |s|)[k] == s[k]
    {
      assert mem[off + k] == s[(off + k) - off];
    }
  }

  lemma StrLenIs(mem: Str, off: nat, n: nat)
    requires off + n < |mem| && mem[off + n] == 0
    requires forall i | off <= i < off + n :: mem[i] != 0
    ensures StrLen(mem, off) == n
  {
    StrLenStops(mem, off);
  }

  /** Bytes s followed by a NUL at off are the C string at off. */
  lemma CStringIs(mem: Str, off: nat, s: Str)
    requires At(mem, off, s) && off + |s| < |mem| && mem[off + |s|] == 0
    requires NulFree(s)
    ensures CString(mem, off) == s && Terminated(mem, off)
  {
    assert forall i | off <= i < off + |s| :: mem[i] == s[i - off];
    StrLenIs(mem, off, |s|);
    SubIs(mem, off, s);
  }

  /** ... and conversely. */
  lemma CStringAt(mem: Str, off: nat)
    requires Terminated(mem, off)
    ensures
      var s := CString(mem, off);
      At(mem, off, s) && off + |s| < |mem| && mem[off + |s|] == 0 && NulFree(s)
  {
    TerminatedStrLen(mem, off);
    CStringNulFree(mem, off);
  }

  /** Growing a pool at its end leaves every terminated string in it as it was. */
  lemma CStringGrow(pool: Str, more: Str, off: nat)
    requires Terminated(pool, off)
    ensures CString(pool + more, off) == CString(pool, off) && Terminated(pool + more, off)
  {
    CStringAt(pool, off);
    CStringIs(pool + more, off, CString(pool, off));
  }

  /** A string written at the end of a pool is read back from the old end. */
  lemma CStringAppend(pool: Str, s: Str)
    requires NulFree(s)
    ensures CString(pool + (s + [0]), |pool|) == s && Terminated(pool + (s + [0]), |pool|)
  {
    CStringIs(pool + (s + [0]), |pool|, s);
  }

  /** A string inside a table of a file is the same string through its absolute offset. */
  lemma CStringWindow(mem: Str, base: nat, table: Str, off: nat)
    requires At(mem, base, table) && Terminated(table, off)
    ensures CString(mem, base + off) == CString(table, off)
    ensures Terminated(mem, base + off)
  {
    CStringAt(table, off);
    var s := CString(table, off);
    forall i | base + off <= i < base + off + |s|
      ensures mem[i] == s[i - (base + off)]
    {
      assert mem[i] == table[i - base];
    }
    assert mem[base + off + |s|] == table[off + |s|];
    CStringIs(mem, base + off, s);
  }
}
