/** The header, artist and song structures of a song index (KarToc.h) as little-endian 32-bit words,
    bit-fields packed from the low end. */
module RecordBytes {
  import opened Bytes
  import opened Records
  import opened Image

  const HEADER_WORDS: nat := 26
  const ARTIST_WORDS: nat := 5
  const SONG_WORDS: nat := 14
  const MAGIC: U32 := 0x5844_4E49   // "INDX"

  // ---- words and bytes

  function ByteOf(w: U32, j: nat): Byte
    requires j < 4
  {
    if j == 0 then w % 0x100
    else if j == 1 then w / 0x100 % 0x100
    else if j == 2 then w / 0x1_0000 % 0x100
    else w / 0x100_0000
  }

  function Word(b0: Byte, b1: Byte, b2: Byte, b3: Byte): U32
  {
    b0 + 0x100 * (b1 + 0x100 * (b2 + 0x100 * b3))
  }

  lemma WordOfBytes(w: U32)
    ensures Word(ByteOf(w, 0), ByteOf(w, 1), ByteOf(w, 2), ByteOf(w, 3)) == w
  {
    assert w / 0x1_0000 == w / 0x100 / 0x100;
    assert w / 0x100_0000 == w / 0x1_0000 / 0x100;
  }

  function WordAt(mem: Str, off: nat): U32
    requires off + 4 <= |mem|
  {
    Word(mem[off], mem[off + 1], mem[off + 2], mem[off + 3])
  }

  function WordsAt(mem: Str, off: nat, n: nat): (ws: seq<U32>)
    requires off + 4 * n <= |mem|
  {
    seq(n, i requires 0 <= i < n => WordAt(mem, off + 4 * i))
  }

  /** Words are read from their own bytes only. */
  lemma WordsAtSame(a: Str, b: Str, n: nat)
    requires 4 * n <= |a| && 4 * n <= |b|
    requires forall k | 0 <= k < 4 * n :: a[k] == b[k]
    ensures WordsAt(a, 0, n) == WordsAt(b, 0, n)
  {
    hide Word;
    forall i | 0 <= i < n
      ensures WordAt(a, 4 * i) == WordAt(b, 4 * i)
    {
      var k := 4 * i;
      assert a[k] == b[k] && a[k + 1] == b[k + 1] && a[k + 2] == b[k + 2] && a[k + 3] == b[k + 3];
    }
  }

  function Flat(ws: seq<U32>): (s: Str)
    ensures |s| == 4 * |ws|
  {
    seq(4 * |ws|, k requires 0 <= k < 4 * |ws| => ByteOf(ws[k / 4], k % 4))
  }

  lemma FlatByte(ws: seq<U32>, i: nat, j: nat)
    requires i < |ws| && j < 4
    ensures Flat(ws)[4 * i + j] == ByteOf(ws[i], j)
  {
    assert (4 * i + j) / 4 == i && (4 * i + j) % 4 == j;
  }

  lemma FlatInside(mem: Str, off: nat, ws: seq<U32>)
    requires At(mem, off, Flat(ws))
    ensures off + 4 * |ws| <= |mem|
  {}

  lemma MemByte(mem: Str, off: nat, ws: seq<U32>, i: nat, j: nat)
    requires At(mem, off, Flat(ws)) && i < |ws| && j < 4
    ensures off + 4 * i + j < |mem| && mem[off + 4 * i + j] == ByteOf(ws[i], j)
  {
    hide ByteOf, Flat;
    var k := 4 * i + j;
    FlatByte(ws, i, j);
    assert mem[off + k] == Flat(ws)[off + k - off];
  }

  lemma FlatAt(mem: Str, off: nat, ws: seq<U32>)
    requires At(mem, off, Flat(ws))
    ensures WordsAt(mem, off, |ws|) == ws
  {
    hide ByteOf, Word, Flat, At;
    FlatInside(mem, off, ws);
    forall i | 0 <= i < |ws|
      ensures WordAt(mem, off + 4 * i) == ws[i]
    {
      MemByte(mem, off, ws, i, 0);
      MemByte(mem, off, ws, i, 1);
      MemByte(mem, off, ws, i, 2);
      MemByte(mem, off, ws, i, 3);
      WordOfBytes(ws[i]);
    }
  }

  // ---- records

  function Bit(b: bool): nat { if b then 1 else 0 }

  function CreditsLow(c: Credits): U32
  {
    c.nameWords + 0x10 * (Bit(c.isSinger) + 2 * (Bit(c.isAuthor) + 2 * (c.singerType + 0x10 * c.singerSongs)))
  }

  function CreditsHigh(c: Credits): U32
  {
    c.language + 0x100 * (c.authorSongs + 0x40_0000 * c.reserved)
  }

  function CreditsOf(low: U32, high: U32): Credits
  {
    Credits(low % 0x10, low / 0x10 % 2 == 1, low / 0x20 % 2 == 1, low / 0x40 % 0x10, low / 0x400,
            high % 0x100, high / 0x100 % 0x40_0000, high / 0x4000_0000)
  }

  lemma CreditsLowUnpacks(c: Credits)
    ensures
      var w := CreditsLow(c);
      && w % 0x10 == c.nameWords && (w / 0x10 % 2 == 1) == c.isSinger && (w / 0x20 % 2 == 1) == c.isAuthor
      && w / 0x40 % 0x10 == c.singerType && w / 0x400 == c.singerSongs
  {
    var w := CreditsLow(c);
    var fromType := c.singerType + 0x10 * c.singerSongs;
    var fromAuthor := Bit(c.isAuthor) + 2 * fromType;
    assert w / 0x10 == Bit(c.isSinger) + 2 * fromAuthor;
    assert w / 0x20 == w / 0x10 / 2 == fromAuthor;
    assert w / 0x40 == w / 0x20 / 2 == fromType;
    assert w / 0x400 == w / 0x40 / 0x10 == c.singerSongs;
  }

  lemma CreditsRoundTrip(c: Credits)
    ensures CreditsOf(CreditsLow(c), CreditsHigh(c)) == c
  {
    hide CreditsLow;
    CreditsLowUnpacks(c);
    assert CreditsHigh(c) / 0x4000_0000 == CreditsHigh(c) / 0x100 / 0x40_0000;
  }

  lemma CreditsWords(low: U32, high: U32)
    ensures CreditsLow(CreditsOf(low, high)) == low && CreditsHigh(CreditsOf(low, high)) == high
  {
    assert low / 0x20 == low / 0x10 / 2;
    assert low / 0x40 == low / 0x20 / 2;
    assert low / 0x400 == low / 0x40 / 0x10;
    assert high / 0x4000_0000 == high / 0x100 / 0x40_0000;
  }

  function ArtistWords(a: ArtistRec): (ws: seq<U32>)
    ensures |ws| == ARTIST_WORDS
  {
    [CreditsLow(a.credits), CreditsHigh(a.credits), a.name, a.pinyin, a.singerIdx]
  }

  function ArtistOf(ws: seq<U32>): ArtistRec
    requires |ws| == ARTIST_WORDS
  {
    Person(CreditsOf(ws[0], ws[1]), ws[2], ws[3], ws[4])
  }

  /** Artist records and groups of five words correspond one to one. */
  lemma ArtistRoundTrip(a: ArtistRec, ws: seq<U32>)
    requires |ws| == ARTIST_WORDS
    ensures ArtistOf(ArtistWords(a)) == a
    ensures ArtistWords(ArtistOf(ws)) == ws
  {
    hide CreditsLow, CreditsHigh, CreditsOf;
    CreditsRoundTrip(a.credits);
    CreditsWords(ws[0], ws[1]);
  }

  function Pair(low: U16, high: U16): U32 { low + 0x1_0000 * high }

  function Pack(flags: U2, mediaType: U2, nameWords: U4, language: U8, traits: U16): U32
  {
    flags + 4 * (mediaType + 4 * (nameWords + 0x10 * (language + 0x100 * traits)))
  }

  function Property(i: SongInfo): U32 { Pack(i.flags, i.mediaType, i.nameWords, i.language, i.traits) }

  function MidiFile(i: SongInfo): U32 { i.abc + 0x10 * i.midiPos }

  function SongWords(s: SongRec): (ws: seq<U32>)
    ensures |ws| == SONG_WORDS
  {
    [Property(s.info),
     Pair(s.singers[0], s.singers[1]), Pair(s.singers[2], s.singers[3]),
     Pair(s.authors[0], s.authors[1]), Pair(s.authors[2], s.authors[3]),
     s.name, s.pinyin, s.info.media, s.info.mediaSize, MidiFile(s.info), s.info.midiSize,
     s.info.code5, s.info.code6, s.clips]
  }

  function InfoOf(property: U32, media: U32, mediaSize: U32, midi: U32, midiSize: U32, code5: U32, code6: U32): SongInfo
  {
    SongInfo(property % 4, property / 4 % 4, property / 0x10 % 0x10, property / 0x100 % 0x100, property / 0x1_0000,
             media, mediaSize, midi % 0x10, midi / 0x10, midiSize, code5, code6)
  }

  function SlotsOf(first: U32, second: U32): Slots
  {
    [first % 0x1_0000, first / 0x1_0000, second % 0x1_0000, second / 0x1_0000]
  }

  function SongOf(ws: seq<U32>): SongRec
    requires |ws| == SONG_WORDS
  {
    Song(InfoOf(ws[0], ws[7], ws[8], ws[9], ws[10], ws[11], ws[12]),
         SlotsOf(ws[1], ws[2]), SlotsOf(ws[3], ws[4]), ws[5], ws[6], ws[13])
  }

  lemma PackUnpacks(w: U32)
    ensures Pack(w % 4, w / 4 % 4, w / 0x10 % 0x10, w / 0x100 % 0x100, w / 0x1_0000) == w
  {
    assert w / 0x10 == w / 4 / 4;
    assert w / 0x100 == w / 0x10 / 0x10;
    assert w / 0x1_0000 == w / 0x100 / 0x100;
  }

  lemma UnpackPacks(flags: U2, mediaType: U2, nameWords: U4, language: U8, traits: U16)
    ensures
      var w := Pack(flags, mediaType, nameWords, language, traits);
      && w % 4 == flags && w / 4 % 4 == mediaType && w / 0x10 % 0x10 == nameWords
      && w / 0x100 % 0x100 == language && w / 0x1_0000 == traits
  {
    var w := Pack(flags, mediaType, nameWords, language, traits);
    var fromLanguage := language + 0x100 * traits;
    var fromWords := nameWords + 0x10 * fromLanguage;
    assert w / 4 == mediaType + 4 * fromWords;
    assert w / 0x10 == w / 4 / 4 == fromWords;
    assert w / 0x100 == w / 0x10 / 0x10 == fromLanguage;
  }

  lemma InfoRoundTrip(i: SongInfo)
    ensures InfoOf(Property(i), i.media, i.mediaSize, MidiFile(i), i.midiSize, i.code5, i.code6) == i
  {
    hide Pack;
    UnpackPacks(i.flags, i.mediaType, i.nameWords, i.language, i.traits);
  }

  lemma InfoWords(property: U32, media: U32, mediaSize: U32, midi: U32, midiSize: U32, code5: U32, code6: U32)
    ensures
      var i := InfoOf(property, media, mediaSize, midi, midiSize, code5, code6);
      Property(i) == property && MidiFile(i) == midi
  {
    hide Pack;
    PackUnpacks(property);
  }

  lemma SlotsRoundTrip(s: Slots)
    ensures SlotsOf(Pair(s[0], s[1]), Pair(s[2], s[3])) == s
  {}

  lemma SlotsWords(first: U32, second: U32)
    ensures
      var s := SlotsOf(first, second);
      Pair(s[0], s[1]) == first && Pair(s[2], s[3]) == second
  {}

  /** Song records and groups of fourteen words correspond one to one. */
  lemma SongRoundTrip(s: SongRec, ws: seq<U32>)
    requires |ws| == SONG_WORDS
    ensures SongOf(SongWords(s)) == s
    ensures SongWords(SongOf(ws)) == ws
  {
    hide Property, Pair, SlotsOf, MidiFile;
    InfoRoundTrip(s.info);
    SlotsRoundTrip(s.singers);
    SlotsRoundTrip(s.authors);
    InfoWords(ws[0], ws[7], ws[8], ws[9], ws[10], ws[11], ws[12]);
    SlotsWords(ws[1], ws[2]);
    SlotsWords(ws[3], ws[4]);
  }

  // ---- the flags behind a clip list

  /** Song_Info_Extra_S */
  datatype Extra = Extra(
    hotSong: bool, newSongClub: bool, criticalSong: bool, coupleSingers: bool, delete: bool, vocalMp3Mkv: bool,
    user: bool, newTocFormat: bool)

  function ExtraByte(e: Extra): Byte
  {
    Bit(e.hotSong) + 2 * Bit(e.newSongClub) + 4 * Bit(e.criticalSong) + 8 * Bit(e.coupleSingers)
      + 0x10 * Bit(e.delete) + 0x20 * Bit(e.vocalMp3Mkv) + 0x40 * Bit(e.user) + 0x80 * Bit(e.newTocFormat)
  }

  /** Every byte is the flags of some record. */
  lemma ExtraBytes(b: Byte) returns (e: Extra)
    ensures ExtraByte(e) == b
  {
    var b0, b1, b2, b3 := FourBits(b % 0x10);
    var b4, b5, b6, b7 := FourBits(b / 0x10);
    e := Extra(b0, b1, b2, b3, b4, b5, b6, b7);
  }

  lemma FourBits(n: nat) returns (b0: bool, b1: bool, b2: bool, b3: bool)
    requires n < 0x10
    ensures n == Bit(b0) + 2 * Bit(b1) + 4 * Bit(b2) + 8 * Bit(b3)
  {
    b0, b1, b2, b3 := n % 2 == 1, n / 2 % 2 == 1, n / 4 % 2 == 1, n / 8 == 1;
  }

  /** The flags e behind the count at off and as many clips of two bytes. */
  predicate ExtraAt(mem: Str, off: nat, e: Extra)
  {
    off < |mem| && off + 1 + 2 * (mem[off] as int) < |mem| && mem[off + 1 + 2 * (mem[off] as int)] == ExtraByte(e)
  }

  /** A song is marked exactly when the delete flag of the record behind its n clips is set; those clips and
      that record are copied along whole exactly when its newest flag is. */
  lemma MarkedDeleteIff(mem: Str, off: nat, e: Extra)
    requires ExtraAt(mem, off, e)
    ensures ExtraReadable(mem, off)
    ensures MarkedDelete(mem, off) <==> e.delete
    ensures High(ExtraByte(e)) <==> e.newTocFormat
  {}

  // ---- tables of records

  function ArtistTable(artists: seq<ArtistRec>): (ws: seq<U32>)
    ensures |ws| == ARTIST_WORDS * |artists|
  {
    seq(ARTIST_WORDS * |artists|, k requires 0 <= k < ARTIST_WORDS * |artists| =>
      ArtistWords(artists[k / ARTIST_WORDS])[k % ARTIST_WORDS])
  }

  function SongTable(songs: seq<SongRec>): (ws: seq<U32>)
    ensures |ws| == SONG_WORDS * |songs|
  {
    seq(SONG_WORDS * |songs|, k requires 0 <= k < SONG_WORDS * |songs| =>
      SongWords(songs[k / SONG_WORDS])[k % SONG_WORDS])
  }

  /** The records of the tables at off: getSingerInfo and getSongInfo for each index in turn. */
  function ArtistsAt(mem: Str, off: nat, n: nat): (s: seq<ArtistRec>)
    requires off + 4 * ARTIST_WORDS * n <= |mem|
    ensures |s| == n
  {
    seq(n, i requires 0 <= i < n => ArtistOf(WordsAt(mem, off + 4 * ARTIST_WORDS * i, ARTIST_WORDS)))
  }

  function SongsAt(mem: Str, off: nat, n: nat): (s: seq<SongRec>)
    requires off + 4 * SONG_WORDS * n <= |mem|
    ensures |s| == n
  {
    seq(n, i requires 0 <= i < n => SongOf(WordsAt(mem, off + 4 * SONG_WORDS * i, SONG_WORDS)))
  }

  lemma WordsAtPart(mem: Str, off: nat, n: nat, from: nat, len: nat)
    requires off + 4 * n <= |mem| && from + len <= n
    ensures WordsAt(mem, off + 4 * from, len) == Sub(WordsAt(mem, off, n), from, len)
  {
    hide WordAt;
    var part, whole := WordsAt(mem, off + 4 * from, len), WordsAt(mem, off, n);
    forall i | 0 <= i < len
      ensures part[i] == whole[from + i]
    {
      assert off + 4 * from + 4 * i == off + 4 * (from + i);
    }
  }

  lemma ArtistTableAt(mem: Str, off: nat, artists: seq<ArtistRec>)
    requires At(mem, off, Flat(ArtistTable(artists)))
    ensures ArtistsAt(mem, off, |artists|) == artists
  {
    hide At, Flat, WordsAt, ArtistOf, ArtistWords;
    var ws := ArtistTable(artists);
    FlatAt(mem, off, ws);
    FlatSize(mem, off, ws);
    forall i | 0 <= i < |artists|
      ensures ArtistsAt(mem, off, |artists|)[i] == artists[i]
    {
      WordsAtPart(mem, off, |ws|, ARTIST_WORDS * i, ARTIST_WORDS);
      forall j | 0 <= j < ARTIST_WORDS
        ensures ws[ARTIST_WORDS * i + j] == ArtistWords(artists[i])[j]
      {
        assert (ARTIST_WORDS * i + j) / ARTIST_WORDS == i && (ARTIST_WORDS * i + j) % ARTIST_WORDS == j;
      }
      assert Sub(ws, ARTIST_WORDS * i, ARTIST_WORDS) == ArtistWords(artists[i]);
      ArtistRoundTrip(artists[i], ArtistWords(artists[i]));
    }
  }

  lemma FlatSize(mem: Str, off: nat, ws: seq<U32>)
    requires At(mem, off, Flat(ws))
    ensures off + 4 * |ws| <= |mem|
  {}

  lemma SongTableAt(mem: Str, off: nat, songs: seq<SongRec>)
    requires At(mem, off, Flat(SongTable(songs)))
    ensures SongsAt(mem, off, |songs|) == songs
  {
    hide At, Flat, WordsAt, SongOf, SongWords;
    var ws := SongTable(songs);
    FlatAt(mem, off, ws);
    FlatSize(mem, off, ws);
    forall i | 0 <= i < |songs|
      ensures SongsAt(mem, off, |songs|)[i] == songs[i]
    {
      WordsAtPart(mem, off, |ws|, SONG_WORDS * i, SONG_WORDS);
      forall j | 0 <= j < SONG_WORDS
        ensures ws[SONG_WORDS * i + j] == SongWords(songs[i])[j]
      {
        assert (SONG_WORDS * i + j) / SONG_WORDS == i && (SONG_WORDS * i + j) % SONG_WORDS == j;
      }
      assert Sub(ws, SONG_WORDS * i, SONG_WORDS) == SongWords(songs[i]);
      SongRoundTrip(songs[i], SongWords(songs[i]));
    }
  }

  // ---- the header

  datatype Table = Table(size: U32, at: U32)

  /** Version and revision of the disc, its revisions (1), the illegal releases (2) and the user's own
      songs (3). */
  datatype Versions = Versions(
    version: U16, revision: U16, version1: U16, revision1: U16, version2: U16, revision2: U16, version3: U16,
    revision3: U16)

  datatype Header = Header(
    versions: Versions, fileLen: U32, singerNums: U16, singerInfo: Table, songNums: U32, songInfo: Table,
    singerName: Table, songName: Table, pyNums: U16, songPy: Table, singerPyNums: U16, singerPy: Table,
    mkv: Table, clip: Table)

  function HeaderWords(h: Header): (ws: seq<U32>)
    ensures |ws| == HEADER_WORDS
  {
    [MAGIC,
     Pair(h.versions.version, h.versions.revision), Pair(h.versions.version1, h.versions.revision1),
     Pair(h.versions.version2, h.versions.revision2), Pair(h.versions.version3, h.versions.revision3),
     h.fileLen, h.singerNums, h.singerInfo.size, h.singerInfo.at, h.songNums, h.songInfo.size, h.songInfo.at,
     h.singerName.size, h.singerName.at, h.songName.size, h.songName.at, h.pyNums, h.songPy.size, h.songPy.at,
     h.singerPyNums, h.singerPy.size, h.singerPy.at, h.mkv.size, h.mkv.at, h.clip.size, h.clip.at]
  }

  function Low(w: U32): U16 { w % 0x1_0000 }
  function Upper(w: U32): U16 { w / 0x1_0000 }

  function VersionsOf(w1: U32, w2: U32, w3: U32, w4: U32): Versions
  {
    Versions(Low(w1), Upper(w1), Low(w2), Upper(w2), Low(w3), Upper(w3), Low(w4), Upper(w4))
  }

  function HeaderOf(ws: seq<U32>): Header
    requires |ws| == HEADER_WORDS
  {
    Header(VersionsOf(ws[1], ws[2], ws[3], ws[4]), ws[5], Low(ws[6]), Table(ws[7], ws[8]), ws[9], Table(ws[10], ws[11]),
           Table(ws[12], ws[13]), Table(ws[14], ws[15]), Low(ws[16]), Table(ws[17], ws[18]),
           Low(ws[19]), Table(ws[20], ws[21]), Table(ws[22], ws[23]), Table(ws[24], ws[25]))
  }

  lemma PairRoundTrip(low: U16, high: U16)
    ensures Low(Pair(low, high)) == low && Upper(Pair(low, high)) == high
  {}

  lemma HeaderRoundTrip(h: Header)
    ensures HeaderOf(HeaderWords(h)) == h
  {
    hide Pair, Low, Upper;
    var v := h.versions;
    PairRoundTrip(v.version, v.revision);
    PairRoundTrip(v.version1, v.revision1);
    PairRoundTrip(v.version2, v.revision2);
    PairRoundTrip(v.version3, v.revision3);
    LowSmall(h.singerNums);
    LowSmall(h.pyNums);
    LowSmall(h.singerPyNums);
  }

  lemma LowSmall(n: U16)
    ensures Low(n) == n
  {}

  // ---- where each field stands

  /** The little-endian numbers of two and four bytes at off. */
  function Half(mem: Str, off: nat): nat
    requires off + 2 <= |mem|
  {
    var low: nat, high: nat := mem[off], mem[off + 1];
    low + 0x100 * high
  }

  function Full(mem: Str, off: nat): nat
    requires off + 4 <= |mem|
  {
    Half(mem, off) + 0x1_0000 * Half(mem, off + 2)
  }

  lemma WordIsFull(mem: Str, off: nat)
    requires off + 4 <= |mem|
    ensures WordAt(mem, off) == Full(mem, off)
    ensures Low(WordAt(mem, off)) == Half(mem, off) && Upper(WordAt(mem, off)) == Half(mem, off + 2)
  {}

  lemma WordsAtFull(mem: Str, off: nat, n: nat)
    requires off + 4 * n <= |mem|
    ensures forall i | 0 <= i < n :: WordsAt(mem, off, n)[i] == Full(mem, off + 4 * i)
  {
    hide WordAt, Full;
    forall i | 0 <= i < n
      ensures off + 4 * i + 4 <= |mem| && WordsAt(mem, off, n)[i] == Full(mem, off + 4 * i)
    {
      WordIsFull(mem, off + 4 * i);
    }
  }

  /** The header of a file, field by field at its byte offset. */
  lemma HeaderFields(mem: Str)
    requires |mem| >= 4 * HEADER_WORDS
    ensures
      var h := HeaderOf(WordsAt(mem, 0, HEADER_WORDS));
      && h.versions.version == Half(mem, 4) && h.versions.revision == Half(mem, 6)
      && h.versions.version1 == Half(mem, 8) && h.versions.revision1 == Half(mem, 10)
      && h.versions.version2 == Half(mem, 12) && h.versions.revision2 == Half(mem, 14)
      && h.versions.version3 == Half(mem, 16) && h.versions.revision3 == Half(mem, 18)
    ensures
      var h := HeaderOf(WordsAt(mem, 0, HEADER_WORDS));
      && h.fileLen == Full(mem, 20) && h.singerNums == Half(mem, 24) && h.songNums == Full(mem, 36)
      && h.pyNums == Half(mem, 64) && h.singerPyNums == Half(mem, 76)
      && h.singerInfo == Table(Full(mem, 28), Full(mem, 32)) && h.songInfo == Table(Full(mem, 40), Full(mem, 44))
      && h.singerName == Table(Full(mem, 48), Full(mem, 52)) && h.songName == Table(Full(mem, 56), Full(mem, 60))
      && h.songPy == Table(Full(mem, 68), Full(mem, 72)) && h.singerPy == Table(Full(mem, 80), Full(mem, 84))
      && h.mkv == Table(Full(mem, 88), Full(mem, 92)) && h.clip == Table(Full(mem, 96), Full(mem, 100))
  {
    hide WordAt, Low, Upper, Half, Full;
    WordsAtFull(mem, 0, HEADER_WORDS);
    forall i | 0 <= i < HEADER_WORDS
      ensures WordsAt(mem, 0, HEADER_WORDS)[i] == WordAt(mem, 4 * i)
      ensures Low(WordAt(mem, 4 * i)) == Half(mem, 4 * i) && Upper(WordAt(mem, 4 * i)) == Half(mem, 4 * i + 2)
    {
      WordIsFull(mem, 4 * i);
    }
  }

  /** An artist record's fields by byte offset and bit. */
  lemma ArtistFields(mem: Str, off: nat)
    requires off + 4 * ARTIST_WORDS <= |mem|
    ensures
      var a := ArtistOf(WordsAt(mem, off, ARTIST_WORDS));
      && a.name == Full(mem, off + 8) && a.pinyin == Full(mem, off + 12) && a.singerIdx == Full(mem, off + 16)
      && a.credits.nameWords == mem[off] % 0x10
      && (a.credits.isSinger <==> mem[off] / 0x10 % 2 == 1) && (a.credits.isAuthor <==> mem[off] / 0x20 % 2 == 1)
      && a.credits.singerType == mem[off] / 0x40 + 4 * (mem[off + 1] % 4)
      && a.credits.singerSongs == mem[off + 1] / 4 + 0x40 * Half(mem, off + 2)
      && a.credits.language == mem[off + 4]
      && a.credits.authorSongs == Half(mem, off + 5) + 0x1_0000 * (mem[off + 7] as int % 0x40)
      && a.credits.reserved == mem[off + 7] / 0x40
  {
    hide CreditsOf;
    WordsAtFull(mem, off, ARTIST_WORDS);
    CreditsFields(mem, off);
  }

  lemma CreditsFields(mem: Str, off: nat)
    requires off + 8 <= |mem|
    ensures
      var c := CreditsOf(Full(mem, off), Full(mem, off + 4));
      && c.nameWords == mem[off] % 0x10
      && (c.isSinger <==> mem[off] / 0x10 % 2 == 1) && (c.isAuthor <==> mem[off] / 0x20 % 2 == 1)
      && c.singerType == mem[off] / 0x40 + 4 * (mem[off + 1] % 4)
      && c.singerSongs == mem[off + 1] / 4 + 0x40 * Half(mem, off + 2)
      && c.language == mem[off + 4]
      && c.authorSongs == Half(mem, off + 5) + 0x1_0000 * (mem[off + 7] as int % 0x40)
      && c.reserved == mem[off + 7] / 0x40
  {
    LowFields(mem[off], mem[off + 1], Half(mem, off + 2));
    HighFields(mem[off + 4], Half(mem, off + 5), mem[off + 7]);
  }

  lemma Divides(w: nat, d: nat, q: nat, r: nat)
    requires w == d * q + r && r < d
    ensures w / d == q && w % d == r
  {
    assert d * (q - w / d) == w % d - r;
    Multiple(d, q - w / d);
  }

  lemma Multiple(d: nat, x: int)
    ensures x >= 1 ==> d * x >= d
    ensures x <= -1 ==> d * x <= -(d as int)
  {}

  lemma LowFields(a: Byte, b: Byte, rest: U16)
    ensures
      var w: nat := a + 0x100 * (b as int) + 0x1_0000 * rest;
      && w % 0x10 == a % 0x10 && w / 0x10 % 2 == a / 0x10 % 2 && w / 0x20 % 2 == a / 0x20 % 2
      && w / 0x40 % 0x10 == a / 0x40 + 4 * (b % 4) && w / 0x400 == b / 4 + 0x40 * rest
  {
    var above: nat := b + 0x100 * rest;
    LowBits(a, above);
    Divides(a + 0x100 * above, 0x400, above / 4, a + 0x100 * (above % 4));
    Divides(above, 4, b / 4 + 0x40 * rest, b % 4);
  }

  lemma LowBits(a: Byte, above: nat)
    ensures
      var w: nat := a + 0x100 * above;
      && w % 0x10 == a % 0x10 && w / 0x10 % 2 == a / 0x10 % 2 && w / 0x20 % 2 == a / 0x20 % 2
      && w / 0x40 % 0x10 == a / 0x40 + 4 * (above % 4)
  {
    var w: nat := a + 0x100 * above;
    Divides(w, 0x10, a / 0x10 + 0x10 * above, a % 0x10);
    Divides(w, 0x20, a / 0x20 + 8 * above, a % 0x20);
    Divides(w, 0x40, a / 0x40 + 4 * above, a % 0x40);
    SameParity(a / 0x10, 8 * above);
    SameParity(a / 0x20, 4 * above);
    Divides(a / 0x40 + 4 * above, 0x10, above / 4, a / 0x40 + 4 * (above % 4));
  }

  lemma SameParity(a: nat, k: nat)
    ensures (a + 2 * k) % 2 == a % 2
  {}

  lemma HighFields(a: Byte, middle: U16, d: Byte)
    ensures
      var w: nat := a + 0x100 * middle + 0x100_0000 * (d as int);
      && w % 0x100 == a && w / 0x100 % 0x40_0000 == middle + 0x1_0000 * (d as int % 0x40)
      && w / 0x4000_0000 == d / 0x40
  {
    var above: nat := middle + 0x1_0000 * (d as int);
    Divides(a + 0x100 * above, 0x100, above, a);
    Divides(above, 0x40_0000, d / 0x40, middle + 0x1_0000 * (d as int % 0x40));
    Divides(a + 0x100 * above, 0x4000_0000, d / 0x40, a + 0x100 * (above % 0x40_0000));
  }

  /** A song record's fields by byte offset and bit. */
  lemma SongFields(mem: Str, off: nat)
    requires off + 4 * SONG_WORDS <= |mem|
    ensures
      var s := SongOf(WordsAt(mem, off, SONG_WORDS));
      && (forall k | 0 <= k < MAX_ARTIST_PER_SONG ::
            s.singers[k] == Half(mem, off + 4 + 2 * k) && s.authors[k] == Half(mem, off + 12 + 2 * k))
      && s.name == Full(mem, off + 20) && s.pinyin == Full(mem, off + 24) && s.clips == Full(mem, off + 52)
    ensures
      var i := SongOf(WordsAt(mem, off, SONG_WORDS)).info;
      && i.flags == mem[off] % 4 && i.mediaType == mem[off] / 4 % 4 && i.nameWords == mem[off] / 0x10
      && i.language == mem[off + 1] && i.traits == Half(mem, off + 2)
      && i.media == Full(mem, off + 28) && i.mediaSize == Full(mem, off + 32)
      && i.abc == mem[off + 36] % 0x10 && Full(mem, off + 36) == i.abc + 0x10 * i.midiPos
      && i.midiSize == Full(mem, off + 40) && i.code5 == Full(mem, off + 44) && i.code6 == Full(mem, off + 48)
  {
    hide SlotsOf, WordAt, Full, Half;
    WordsAtFull(mem, off, SONG_WORDS);
    SlotFields(mem, off + 4);
    SlotFields(mem, off + 12);
    PropertyFields(mem, off);
    LowestFour(mem, off + 36);
  }

  lemma SlotFields(mem: Str, off: nat)
    requires off + 8 <= |mem|
    ensures
      var s := SlotsOf(Full(mem, off), Full(mem, off + 4));
      forall k | 0 <= k < MAX_ARTIST_PER_SONG :: s[k] == Half(mem, off + 2 * k)
  {
    Divides(Full(mem, off), 0x1_0000, Half(mem, off + 2), Half(mem, off));
    Divides(Full(mem, off + 4), 0x1_0000, Half(mem, off + 6), Half(mem, off + 4));
  }

  lemma PropertyFields(mem: Str, off: nat)
    requires off + 4 <= |mem|
    ensures
      var w := Full(mem, off);
      && w % 4 == mem[off] % 4 && w / 4 % 4 == mem[off] / 4 % 4 && w / 0x10 % 0x10 == mem[off] / 0x10
      && w / 0x100 % 0x100 == mem[off + 1] && w / 0x1_0000 == Half(mem, off + 2)
  {
    FirstByte(mem[off], mem[off + 1] + 0x100 * Half(mem, off + 2));
    Divides(mem[off + 1] + 0x100 * Half(mem, off + 2), 0x100, Half(mem, off + 2), mem[off + 1]);
    Divides(Full(mem, off), 0x1_0000, Half(mem, off + 2), Half(mem, off));
  }

  lemma FirstByte(a: Byte, above: nat)
    ensures
      var w: nat := a + 0x100 * above;
      w % 4 == a % 4 && w / 4 % 4 == a / 4 % 4 && w / 0x10 % 0x10 == a / 0x10 && w / 0x100 == above
  {
    var w: nat := a + 0x100 * above;
    Divides(w, 4, a / 4 + 0x40 * above, a % 4);
    Divides(a / 4 + 0x40 * above, 4, a / 0x10 + 0x10 * above, a / 4 % 4);
    Divides(w, 0x10, a / 0x10 + 0x10 * above, a % 0x10);
    Divides(a / 0x10 + 0x10 * above, 0x10, above, a / 0x10);
    Divides(w, 0x100, above, a);
  }

  lemma LowestFour(mem: Str, off: nat)
    requires off + 4 <= |mem|
    ensures Full(mem, off) % 0x10 == mem[off] % 0x10
  {
    Divides(Full(mem, off), 0x10,
            mem[off] / 0x10 + 0x10 * (mem[off + 1] + 0x100 * Half(mem, off + 2)), mem[off] % 0x10);
  }
}
