/** The artist and song records of a song index (KarToc.h), with the pool references as a
    parameter: S is a uint32 offset in the tables themselves and a byte string once read.
    Bit-field widths are the C declaration's. */
module Records {
  import opened Bytes

  type U2 = x: nat | x < 4
  type U4 = x: nat | x < 0x10
  type U8 = x: nat | x < 0x100
  type U22 = x: nat | x < 0x40_0000
  type U28 = x: nat | x < 0x1000_0000

  const MAX_ARTIST_PER_SONG := 4
  const NO_ARTIST: U16 := 0xFFFF         // UINT16_MAX ends a slot list
  const NO_CLIPS: U32 := 0xFFFF_FFFF     // UINT32_MAX: the song has no clip list
  const VIDEO := 3

  datatype Option<+T> = None | Some(value: T)

  datatype Credits = Credits(
    nameWords: U4, isSinger: bool, isAuthor: bool, singerType: U4, singerSongs: U22,
    language: U8, authorSongs: U22, reserved: U2)

  datatype Person<S> = Person(credits: Credits, name: S, pinyin: S, singerIdx: U32)

  /** Everything in a song record that the merge copies without following it. */
  datatype SongInfo = SongInfo(
    flags: U2, mediaType: U2, nameWords: U4, language: U8, traits: U16,
    media: U32, mediaSize: U32, abc: U4, midiPos: U28, midiSize: U32, code5: U32, code6: U32)

  type Slots = s: seq<U16> | |s| == MAX_ARTIST_PER_SONG witness [0xFFFF, 0xFFFF, 0xFFFF, 0xFFFF]

  datatype Song<S, C> = Song(info: SongInfo, singers: Slots, authors: Slots, name: S, pinyin: S, clips: C)

  /** The slots in use: those before the first NO_ARTIST. */
  function Live(s: Slots): (n: nat)
    ensures n <= MAX_ARTIST_PER_SONG
    ensures forall k | 0 <= k < n :: s[k] != 0xFFFF
    ensures n < MAX_ARTIST_PER_SONG ==> s[n] == 0xFFFF
  {
    if s[0] == NO_ARTIST then 0
    else if s[1] == NO_ARTIST then 1
    else if s[2] == NO_ARTIST then 2
    else if s[3] == NO_ARTIST then 3 else 4
  }

  // ---- clip lists: <n: 1 byte> {<clip: 2 bytes>} x n <extra bytes while bit 7 is set>

  predicate High(b: Byte) { b >= 0x80 }

  function HighRun(mem: Str, off: nat): (n: nat)
    ensures off <= |mem| ==> off + n <= |mem|
    decreases |mem| - off
  {
    if off < |mem| && High(mem[off]) then 1 + HighRun(mem, off + 1) else 0
  }

  lemma {:induction false} HighRunStops(mem: Str, off: nat)
    ensures forall i | off <= i < off + HighRun(mem, off) :: i < |mem| && High(mem[i])
    ensures off + HighRun(mem, off) < |mem| ==> !High(mem[off + HighRun(mem, off)])
    decreases |mem| - off
  {
    if off < |mem| && High(mem[off]) {
      HighRunStops(mem, off + 1);
    }
  }

  function ClipFixed(mem: Str, off: nat): nat
    requires off < |mem|
  {
    var n: nat := mem[off];
    2 * n + 1
  }

  /** The counted part of the clip list at off lies inside mem. */
  predicate ClipReadable(mem: Str, off: nat)
  {
    off < |mem| && off + ClipFixed(mem, off) <= |mem|
  }

  /** The bytes do_insert_song copies for the clip list at off. */
  function ClipList(mem: Str, off: nat): Str
  {
    if ClipReadable(mem, off) then
      var fixed := ClipFixed(mem, off);
      Sub(mem, off, fixed + HighRun(mem, off + fixed))
    else []
  }

  ghost predicate IsClipList(s: Str)
  {
    && |s| > 0 && ClipFixed(s, 0) <= |s|
    && forall k | ClipFixed(s, 0) <= k < |s| :: High(s[k])
  }

  lemma ClipListSub(mem: Str, off: nat)
    requires ClipReadable(mem, off)
    ensures
      var n := ClipFixed(mem, off) + HighRun(mem, off + ClipFixed(mem, off));
      off + n <= |mem| && ClipList(mem, off) == Sub(mem, off, n)
  {
    hide HighRun, Sub;
  }

  lemma ClipListShape(mem: Str, off: nat)
    requires ClipReadable(mem, off)
    ensures IsClipList(ClipList(mem, off))
    ensures ClipList(mem, off)[0] == mem[off] && At(mem, off, ClipList(mem, off))
    ensures off + |ClipList(mem, off)| == |mem| || !High(mem[off + |ClipList(mem, off)|])
  {
    hide High, HighRun, Sub, ClipList;
    var fixed := ClipFixed(mem, off);
    var run := HighRun(mem, off + fixed);
    HighRunStops(mem, off + fixed);
    ClipListSub(mem, off);
    SubAt(mem, off, fixed + run);
    ClipListHigh(mem, off, ClipList(mem, off), fixed, run);
  }

  lemma ClipListHigh(mem: Str, off: nat, s: Str, fixed: nat, run: nat)
    requires At(mem, off, s) && |s| == fixed + run && off < |mem| && fixed == ClipFixed(mem, off)
    requires forall i | off + fixed <= i < off + fixed + run :: i < |mem| && High(mem[i])
    ensures IsClipList(s) && s[0] == mem[off]
  {
    hide High;
    assert mem[off] == s[off - off];
    forall k | fixed <= k < |s|
      ensures High(s[k])
    {
      assert mem[off + k] == s[(off + k) - off];
    }
  }

  lemma HighRunIs(mem: Str, off: nat, n: nat)
    requires off + n <= |mem| && (off + n == |mem| || !High(mem[off + n]))
    requires forall i | off <= i < off + n :: High(mem[i])
    ensures HighRun(mem, off) == n
  {
    HighRunStops(mem, off);
  }

  lemma ClipListIs(mem: Str, off: nat, s: Str)
    requires IsClipList(s) && At(mem, off, s)
    requires off + |s| == |mem| || !High(mem[off + |s|])
    ensures ClipReadable(mem, off) && ClipList(mem, off) == s
  {
    hide High, HighRun, Sub;
    var fixed := ClipFixed(s, 0);
    AtFirst(mem, off, s);
    AtHigh(mem, off, s, fixed);
    assert ClipFixed(mem, off) == fixed && off + fixed <= |mem|;
    HighRunIs(mem, off + fixed, |s| - fixed);
    SubIs(mem, off, s);
    assert ClipList(mem, off) == Sub(mem, off, |s|);
  }

  lemma AtFirst(mem: Str, off: nat, s: Str)
    requires At(mem, off, s) && |s| > 0
    ensures mem[off] == s[0]
  {
    assert mem[off] == s[off - off];
  }

  lemma AtHigh(mem: Str, off: nat, s: Str, fixed: nat)
    requires At(mem, off, s) && forall k | fixed <= k < |s| :: High(s[k])
    ensures forall i | off + fixed <= i < off + |s| :: High(mem[i])
  {
    hide High;
    forall i | off + fixed <= i < off + |s|
      ensures High(mem[i])
    {
      assert mem[i] == s[i - off] && High(s[i - off]);
    }
  }

  /** What is appended leaves a list as it was exactly when the list was ended inside the pool, or the
      first byte appended ends it: a list with a count of 128 and more does not. */
  lemma ClipListGrow(pool: Str, more: Str, off: nat)
    requires ClipReadable(pool, off)
    ensures ClipReadable(pool + more, off)
    ensures ClipList(pool + more, off) == ClipList(pool, off)
       <==> off + |ClipList(pool, off)| < |pool| || more == [] || !High(more[0])
  {
    hide High;
    ClipListShape(pool, off);
    ClipListShape(pool + more, off);
    if off + |ClipList(pool, off)| < |pool| || more == [] || !High(more[0]) {
      ClipListIs(pool + more, off, ClipList(pool, off));
    }
  }

  lemma ClipListAppend(pool: Str, s: Str)
    requires IsClipList(s)
    ensures ClipReadable(pool + s, |pool|) && ClipList(pool + s, |pool|) == s
  {
    ClipListIs(pool + s, |pool|, s);
  }

  /** A list inside a table of a file is the same list through its absolute offset, if a byte
      with bit 7 clear ends it or the table ends the file. */
  lemma ClipListWindow(mem: Str, base: nat, table: Str, off: nat)
    requires At(mem, base, table) && ClipReadable(table, off)
    requires base + |table| == |mem| || off + |ClipList(table, off)| < |table|
    ensures ClipReadable(mem, base + off) && ClipList(mem, base + off) == ClipList(table, off)
  {
    hide ClipList, IsClipList, High;
    ClipListShape(table, off);
    var s := ClipList(table, off);
    forall i | base + off <= i < base + off + |s|
      ensures mem[i] == s[i - (base + off)]
    {
      assert mem[i] == table[i - base];
    }
    assert off + |s| < |table| ==> mem[base + off + |s|] == table[off + |s|];
    ClipListIs(mem, base + off, s);
  }

  /** Bit 4 of the byte after the counted part (Song_Info_Extra_S.bDelete). */
  predicate ExtraReadable(mem: Str, off: nat) { ClipReadable(mem, off) && off + ClipFixed(mem, off) < |mem| }

  predicate MarkedDelete(mem: Str, off: nat)
    requires ExtraReadable(mem, off)
  {
    mem[off + ClipFixed(mem, off)] / 0x10 % 2 == 1
  }

  /** The flags byte behind the counted part goes along with a stored list only if its bit 7 is set. Of
      the list stored at the end of pool, and whatever is stored after it, the byte read as its flags is
      the right one exactly then, or if the next byte stored happens to equal it. */
  lemma FlagsKeptIff(mem: Str, off: nat, pool: Str, more: Str)
    requires ExtraReadable(mem, off)
    ensures
      var flags, at := mem[off + ClipFixed(mem, off)], |pool| + ClipFixed(mem, off);
      var after := pool + ClipList(mem, off) + more;
      && (at < |after| && after[at] == flags <==> High(flags) || (more != [] && more[0] == flags))
      && (!High(flags) ==> if more == [] then at == |after| else after[at] == more[0])
  {
    hide High, ClipList;
    var fixed := ClipFixed(mem, off);
    ClipListShape(mem, off);
    ClipListSub(mem, off);
    var s := ClipList(mem, off);
    assert HighRun(mem, off + fixed) == if High(mem[off + fixed]) then 1 + HighRun(mem, off + fixed + 1) else 0;
    if High(mem[off + fixed]) { assert mem[off + fixed] == s[off + fixed - off]; }
  }
}
