/** A song index as a file: reading its header and tables, making their offsets relative to the
    string tables for a merge, and laying the merged tables out again. */
module TocFile {
  import opened Bytes
  import opened Records
  import opened Catalogue
  import opened Image
  import opened IndexMask
  import opened RecordBytes

  const HEADER_SIZE: nat := 4 * HEADER_WORDS

  // ---- reading

  /** What parse_file and parse_data take from unmasked bytes; None is their -1. */
  function ParseMem(mem: Str): Option<Header>
  {
    if |mem| >= HEADER_SIZE && WordAt(mem, 0) == MAGIC then Some(HeaderOf(WordsAt(mem, 0, HEADER_WORDS))) else None
  }

  /** parse_file */
  function ParseFile(file: Str): Option<Header> { ParseMem(Unmask(file, 0)) }

  /** parse_file_header reads and unmasks the header's bytes only. */
  function ParseFileHeader(file: Str): Option<Header>
  {
    if |file| < HEADER_SIZE then None else ParseMem(Unmask(Sub(file, 0, HEADER_SIZE), 0))
  }

  /** Reading the header alone and reading the whole file give the same header. */
  lemma HeadersAgree(file: Str)
    ensures ParseFileHeader(file) == ParseFile(file)
  {
    hide UnmaskByte, WordAt, HeaderOf;
    if |file| >= HEADER_SIZE {
      var head, whole := Unmask(Sub(file, 0, HEADER_SIZE), 0), Unmask(file, 0);
      WordsAtSame(head, whole, HEADER_WORDS);
      assert WordAt(head, 0) == WordsAt(head, 0, HEADER_WORDS)[0];
    }
  }

  /** A file is taken for an index exactly when it is as long as a header and begins, masked, with INDX. */
  lemma ParsesIff(file: Str)
    ensures ParseFile(file).Some?
      <==> |file| >= 104 && file[0] == 0xEE && file[1] == 0xD6 && file[2] == 0xDE && file[3] == 0xA7
  {
    hide HeaderOf, WordsAt, MaskByte, UnmaskByte;
    if |file| >= HEADER_SIZE {
      MagicBytes(Unmask(file, 0));
      MagicMasked();
      forall i | 0 <= i < 4
        ensures MaskByte(Unmask(file, 0)[i], i) == file[i]
        ensures UnmaskByte(MaskByte(Unmask(file, 0)[i], i), i) == Unmask(file, 0)[i]
      {
        MaskByteInverts(file[i], i);
      }
      MaskByteInverts(0x49, 0);
      MaskByteInverts(0x4E, 1);
      MaskByteInverts(0x44, 2);
      MaskByteInverts(0x58, 3);
    }
  }

  lemma MagicBytes(mem: Str)
    requires |mem| >= 4
    ensures WordAt(mem, 0) == MAGIC <==> mem[0] == 0x49 && mem[1] == 0x4E && mem[2] == 0x44 && mem[3] == 0x58
  {}

  lemma MagicMasked()
    ensures MaskByte(0x49, 0) == 0xEE && MaskByte(0x4E, 1) == 0xD6
    ensures MaskByte(0x44, 2) == 0xDE && MaskByte(0x58, 3) == 0xA7
  {
    hide Twist;
    FirstMagicBits();
    LastMagicBits();
    hide MaskBits;
  }

  lemma FirstMagicBits()
    ensures MaskBits(0x49, 0) == 0xEE && MaskBits(0x4E, 1) == 0xD6
  {
    hide Key;
    KeysTo4();
  }

  lemma LastMagicBits()
    ensures MaskBits(0x44, 2) == 0xDE && MaskBits(0x58, 3) == 0xA7
  {
    hide Key;
    KeysTo4();
  }

  predicate Inside(mem: Str, t: Table) { t.at + t.size <= |mem| }

  /** The tables lie inside the file. */
  predicate TablesInFile(mem: Str, h: Header)
  {
    && |mem| < NO_CLIPS
    && h.singerInfo.at + 4 * ARTIST_WORDS * h.singerNums <= |mem|
    && h.songInfo.at + 4 * SONG_WORDS * h.songNums <= |mem|
    && Inside(mem, h.singerName) && Inside(mem, h.songName) && Inside(mem, h.songPy)
    && Inside(mem, h.singerPy) && Inside(mem, h.mkv) && Inside(mem, h.clip)
  }

  /** A loaded index: absolute offsets, strings anywhere in the file. */
  function FileImage(mem: Str, h: Header): Image
    requires TablesInFile(mem, h)
  {
    Image(ArtistsAt(mem, h.singerInfo.at, h.singerNums), SongsAt(mem, h.songInfo.at, h.songNums),
          mem, mem, mem, mem, mem, mem)
  }

  function TableBytes(mem: Str, t: Table): Str
    requires Inside(mem, t)
  {
    Sub(mem, t.at, t.size)
  }

  function RebaseArtist(a: ArtistRec, name: int, pinyin: int): ArtistRec
  {
    a.(name := Wrap32(a.name + name), pinyin := Wrap32(a.pinyin + pinyin))
  }

  function RebaseSong(s: SongRec, name: int, pinyin: int, clips: int): SongRec
  {
    s.(name := Wrap32(s.name + name), pinyin := Wrap32(s.pinyin + pinyin),
       clips := if s.clips == NO_CLIPS then NO_CLIPS else Wrap32(s.clips + clips))
  }

  function RebaseArtists(artists: seq<ArtistRec>, name: int, pinyin: int): seq<ArtistRec>
  {
    seq(|artists|, i requires 0 <= i < |artists| => RebaseArtist(artists[i], name, pinyin))
  }

  function RebaseSongs(songs: seq<SongRec>, name: int, pinyin: int, clips: int): seq<SongRec>
  {
    seq(|songs|, i requires 0 <= i < |songs| => RebaseSong(songs[i], name, pinyin, clips))
  }

  /** prepare_merge_toc: every table copied out of the file, offsets counted from its start. */
  function WorkImage(mem: Str, h: Header): Image
    requires TablesInFile(mem, h)
  {
    Image(RebaseArtists(FileImage(mem, h).artists, 0 - h.singerName.at, 0 - h.singerPy.at),
          RebaseSongs(FileImage(mem, h).songs, 0 - h.songName.at, 0 - h.songPy.at, 0 - h.clip.at),
          TableBytes(mem, h.singerName), TableBytes(mem, h.songName), TableBytes(mem, h.songPy),
          TableBytes(mem, h.singerPy), TableBytes(mem, h.mkv), TableBytes(mem, h.clip))
  }

  // ---- versions

  /** UPDATE_TYPE */
  datatype Kind = Disc | ScDisc | XUser | User | YouTube

  /** getVersion, getVersion1, getVersion2 and getVersion3 */
  function Version(h: Header, kind: Kind): U32
    requires kind != YouTube
  {
    var v := h.versions;
    match kind
    case Disc => 100 * v.version + v.revision
    case ScDisc => 100 * v.version1 + v.revision1
    case XUser => 100 * v.version2 + v.revision2
    case User => 100 * v.version3 + v.revision3
  }

  /** hasUpdate */
  predicate Newer(update: Header, h: Header, kind: Kind)
  {
    kind != YouTube && Version(update, kind) > Version(h, kind)
  }

  /** Release (version, revision) comes after release (v, r). */
  predicate Later(version: U16, revision: U16, v: U16, r: U16)
  {
    version > v || (version == v && revision > r)
  }

  /** A revision of 100 and more counts into the version: the two releases are too near each other for the
      distance of their revisions. */
  predicate Carries(version: U16, revision: U16, v: U16, r: U16)
  {
    if version > v then r - revision >= 100 * (version - v)
    else if version < v then revision - r > 100 * (v - version)
    else false
  }

  /** An update is taken as newer exactly when its release of the kind asked for comes later in the order of
      versions first and revisions second; except where a revision counts into the version, when it is
      taken the other way round. Revisions below 100 never do. Updates from YouTube are never newer. */
  lemma NewerIff(update: Header, h: Header, kind: Kind)
    ensures
      var u, v := update.versions, h.versions;
      match kind
      case Disc => Newer(update, h, kind) <==>
        Later(u.version, u.revision, v.version, v.revision) != Carries(u.version, u.revision, v.version, v.revision)
      case ScDisc => Newer(update, h, kind) <==>
        Later(u.version1, u.revision1, v.version1, v.revision1)
        != Carries(u.version1, u.revision1, v.version1, v.revision1)
      case XUser => Newer(update, h, kind) <==>
        Later(u.version2, u.revision2, v.version2, v.revision2)
        != Carries(u.version2, u.revision2, v.version2, v.revision2)
      case User => Newer(update, h, kind) <==>
        Later(u.version3, u.revision3, v.version3, v.revision3)
        != Carries(u.version3, u.revision3, v.version3, v.revision3)
      case YouTube => !Newer(update, h, kind)
    ensures forall n, r, m, q: U16 | r < 100 && q < 100 :: !Carries(n, r, m, q)
  {}

  /** The versions prepare_write_file leaves. */
  function TakeVersion(h: Header, update: Header, kind: Kind): Header
  {
    var u, v := update.versions, h.versions;
    match kind
    case Disc => h.(versions := v.(version := u.version, revision := u.revision))
    case ScDisc => h.(versions := v.(version1 := u.version1, revision1 := u.revision1))
    case XUser => h.(versions := v.(version2 := u.version2, revision2 := u.revision2))
    case User => h.(versions := v.(version3 := u.version3, revision3 := u.revision3))
    case YouTube => h
  }

  /** Versions v with the two fields of the kind as in u. */
  ghost predicate VersionsTaken(v: Versions, u: Versions, kind: Kind, taken: Versions)
  {
    var (version, revision) := if kind == Disc then (u.version, u.revision) else (v.version, v.revision);
    var (version1, revision1) := if kind == ScDisc then (u.version1, u.revision1) else (v.version1, v.revision1);
    var (version2, revision2) := if kind == XUser then (u.version2, u.revision2) else (v.version2, v.revision2);
    var (version3, revision3) := if kind == User then (u.version3, u.revision3) else (v.version3, v.revision3);
    taken == Versions(version, revision, version1, revision1, version2, revision2, version3, revision3)
  }

  /** The saved index has the update's release of the kind it took in, and its own three others: so the same
      update is not newer, and another one is newer than it exactly when it is newer than the update. */
  lemma TakenIsNotNewer(h: Header, update: Header, kind: Kind, other: Header)
    ensures VersionsTaken(h.versions, update.versions, kind, TakeVersion(h, update, kind).versions)
    ensures TakeVersion(h, update, kind) == h.(versions := TakeVersion(h, update, kind).versions)
    ensures !Newer(update, TakeVersion(h, update, kind), kind)
    ensures Newer(other, TakeVersion(h, update, kind), kind) <==> Newer(other, update, kind)
    ensures forall k: Kind | k != kind :: Newer(other, TakeVersion(h, update, kind), k) <==> Newer(other, h, k)
  {}

  // ---- laying out

  /** The parts of the file in the order they are written; the header's size is fixed. */
  function Parts(h: Header, img: Image): seq<Str>
  {
    [Flat(HeaderWords(h)), Flat(ArtistTable(img.artists)), Flat(SongTable(img.songs)),
     img.singerNames, img.songNames, img.songPys, img.singerPys, img.mkvs, img.clips]
  }

  function Sizes(img: Image): (s: seq<nat>)
    ensures |s| == 9
  {
    [HEADER_SIZE, 4 * ARTIST_WORDS * |img.artists|, 4 * SONG_WORDS * |img.songs|,
     |img.singerNames|, |img.songNames|, |img.songPys|, |img.singerPys|, |img.mkvs|, |img.clips|]
  }

  /** Where part k starts: the sizes before it added up. */
  function Start(sizes: seq<nat>, k: nat): nat
    requires k <= |sizes|
  {
    if k == 0 then 0 else Start(sizes, k - 1) + sizes[k - 1]
  }

  function Total(img: Image): nat { Start(Sizes(img), 9) }

  function Place(img: Image, k: nat): Table
    requires k < 9
  {
    Table(Wrap32(Sizes(img)[k]), Wrap32(Start(Sizes(img), k)))
  }

  /** The header prepare_write_file leaves: versions as decided before, places and sizes of img. */
  function LaidHeader(h: Header, img: Image): Header
  {
    h.(fileLen := Wrap32(Total(img)), singerNums := Wrap16(|img.artists|), singerInfo := Place(img, 1),
       songNums := Wrap32(|img.songs|), songInfo := Place(img, 2), singerName := Place(img, 3),
       songName := Place(img, 4),
       pyNums := 0, songPy := Place(img, 5), singerPyNums := 0, singerPy := Place(img, 6),
       mkv := Place(img, 7), clip := Place(img, 8))
  }

  /** The records prepare_write_file leaves: offsets counted from the start of the file. */
  function Absolute(h: Header, img: Image): Image
  {
    img.(artists := RebaseArtists(img.artists, h.singerName.at, h.singerPy.at),
         songs := RebaseSongs(img.songs, h.songName.at, h.songPy.at, h.clip.at))
  }

  /** The first n parts one after the other. */
  function Join(parts: seq<Str>, n: nat): Str
    requires n <= |parts|
  {
    if n == 0 then [] else Join(parts, n - 1) + parts[n - 1]
  }

  /** write_file before the mask. */
  function Written(h: Header, img: Image): Str { Join(Parts(h, img), 9) }

  // ---- what is written is read back

  lemma {:induction false} JoinSize(parts: seq<Str>, sizes: seq<nat>, n: nat)
    requires |parts| == |sizes| && n <= |parts|
    requires forall k | 0 <= k < |parts| :: |parts[k]| == sizes[k]
    ensures |Join(parts, n)| == Start(sizes, n)
  {
    if n > 0 {
      JoinSize(parts, sizes, n - 1);
    }
  }

  /** Part k of a written file is found at its start. */
  lemma {:induction false} JoinAt(parts: seq<Str>, sizes: seq<nat>, n: nat, k: nat)
    requires |parts| == |sizes| && k < n <= |parts|
    requires forall k | 0 <= k < |parts| :: |parts[k]| == sizes[k]
    ensures At(Join(parts, n), Start(sizes, k), parts[k])
  {
    JoinSize(parts, sizes, n - 1);
    if k < n - 1 {
      JoinAt(parts, sizes, n - 1, k);
      var before, off := Join(parts, n - 1), Start(sizes, k);
      forall i | off <= i < off + |parts[k]|
        ensures Join(parts, n)[i] == parts[k][i - off]
      {
        assert Join(parts, n)[i] == before[i];
      }
    }
  }

  lemma WrittenAt(h: Header, img: Image, k: nat)
    requires k < 9
    ensures At(Written(h, img), Start(Sizes(img), k), Parts(h, img)[k])
    ensures |Written(h, img)| == Total(img)
  {
    hide HeaderWords, ArtistTable, SongTable;
    var parts, sizes := Parts(h, img), Sizes(img);
    assert |parts[0]| == sizes[0] && |parts[1]| == sizes[1] && |parts[2]| == sizes[2];
    JoinAt(Parts(h, img), Sizes(img), 9, k);
    JoinSize(Parts(h, img), Sizes(img), 9);
  }

  lemma PlaceIs(img: Image, k: nat)
    requires k < 9 && Total(img) < NO_CLIPS
    ensures Place(img, k).size == Sizes(img)[k] && Place(img, k).at == Start(Sizes(img), k)
    ensures Place(img, k).at + Place(img, k).size <= Total(img)
  {
    hide Sizes, Start, Total;
    TotalIs(img);
    StartGrows(Sizes(img), k, 9);
  }

  lemma {:induction false} StartGrows(sizes: seq<nat>, k: nat, m: nat)
    requires k < m <= |sizes|
    ensures Start(sizes, k) + sizes[k] <= Start(sizes, m)
  {
    if k < m - 1 {
      StartGrows(sizes, k, m - 1);
    }
  }

  /** The tables fit the 32-bit offsets and the counts their fields. */
  predicate Fits(img: Image) { Total(img) < NO_CLIPS && |img.artists| < 0x1_0000 }

  lemma SameSizes(h: Header, img: Image)
    ensures Sizes(Absolute(h, img)) == Sizes(img)
  {}

  /** A string table of a laid-out file is where its header says. */
  lemma WrittenTable(h: Header, img: Image, k: nat)
    requires Fits(img) && k < 9
    ensures
      var laid := LaidHeader(h, img);
      var mem := Written(laid, Absolute(laid, img));
      && At(mem, Place(img, k).at, Parts(laid, Absolute(laid, img))[k]) && |mem| == Total(img)
      && Inside(mem, Place(img, k))
  {
    hide Written, Place, Parts, Sizes, Total, LaidHeader, Absolute;
    var laid := LaidHeader(h, img);
    SameSizes(laid, img);
    TotalIs(img);
    TotalIs(Absolute(laid, img));
    WrittenAt(laid, Absolute(laid, img), k);
    PlaceIs(img, k);
  }

  lemma TotalIs(img: Image)
    ensures Total(img) == Start(Sizes(img), 9)
  {}

  lemma WrittenHeader(h: Header, img: Image)
    requires Fits(img)
    ensures
      var laid := LaidHeader(h, img);
      ParseMem(Written(laid, Absolute(laid, img))) == Some(laid)
  {
    hide LaidHeader, Absolute, Written, HeaderWords, Sizes, ParseMem;
    var laid := LaidHeader(h, img);
    WrittenTable(h, img, 0);
    assert Place(img, 0).at == 0;
    assert Parts(laid, Absolute(laid, img))[0] == Flat(HeaderWords(laid));
    HeaderFirst(Written(laid, Absolute(laid, img)), laid);
  }

  /** The tables follow the header without gaps: artists, songs, the names of both, the pinyin of songs before
      that of artists, mkv names, clip lists; the header's versions and nothing else are kept. */
  lemma LaidOut(h: Header, img: Image)
    requires Fits(img)
    ensures
      var laid := LaidHeader(h, img);
      && Spans(laid.singerInfo, 104, 20 * |img.artists|)
      && Spans(laid.songInfo, End(laid.singerInfo), 56 * |img.songs|)
      && Spans(laid.singerName, End(laid.songInfo), |img.singerNames|)
      && Spans(laid.songName, End(laid.singerName), |img.songNames|)
      && Spans(laid.songPy, End(laid.songName), |img.songPys|)
      && Spans(laid.singerPy, End(laid.songPy), |img.singerPys|)
      && Spans(laid.mkv, End(laid.singerPy), |img.mkvs|)
      && Spans(laid.clip, End(laid.mkv), |img.clips|)
      && laid.fileLen == End(laid.clip) && laid.pyNums == 0 == laid.singerPyNums
      && laid.singerNums == |img.artists| && laid.songNums == |img.songs| && laid.versions == h.versions
  {
    hide Place, Total, Start;
    TotalIs(img);
    forall k: nat | k < 9
      ensures Place(img, k).size == Sizes(img)[k] && Place(img, k).at == Start(Sizes(img), k)
      ensures Start(Sizes(img), k + 1) == Start(Sizes(img), k) + Sizes(img)[k]
    {
      PlaceIs(img, k);
      StartNext(Sizes(img), k);
    }
    StartFirst(Sizes(img));
    assert Sizes(img)[0] == 104;
    assert Start(Sizes(img), 0 + 1) == 104;
  }

  function End(t: Table): nat { t.at + t.size }

  predicate Spans(t: Table, at: nat, size: nat) { t.at == at && t.size == size }

  lemma StartFirst(sizes: seq<nat>)
    ensures Start(sizes, 0) == 0
  {}

  lemma StartNext(sizes: seq<nat>, k: nat)
    requires k < |sizes|
    ensures Start(sizes, k + 1) == Start(sizes, k) + sizes[k]
  {}

  lemma PlacesInside(h: Header, img: Image, mem: Str)
    requires Fits(img) && |mem| == Total(img)
    requires forall k | 0 <= k < 9 :: Inside(mem, Place(img, k)) && Place(img, k).size == Sizes(img)[k]
    ensures TablesInFile(mem, LaidHeader(h, img)) && |mem| == LaidHeader(h, img).fileLen
    ensures LaidHeader(h, img).singerNums == |img.artists| && LaidHeader(h, img).songNums == |img.songs|
  {
    hide Place, Total;
    var sizes := Sizes(img);
    assert Inside(mem, Place(img, 1)) && Inside(mem, Place(img, 2));
    assert sizes[1] == 4 * ARTIST_WORDS * |img.artists| && sizes[2] == 4 * SONG_WORDS * |img.songs|;
  }

  /** A laid-out file is as long as its header says and holds its tables. */
  lemma WrittenInFile(h: Header, img: Image)
    requires Fits(img)
    ensures
      var laid := LaidHeader(h, img);
      var mem := Written(laid, Absolute(laid, img));
      && |mem| == laid.fileLen && TablesInFile(mem, laid)
      && laid.singerNums == |img.artists| && laid.songNums == |img.songs|
  {
    hide Written, LaidHeader, Absolute, Place, Sizes, Inside, Total, TablesInFile;
    var laid := LaidHeader(h, img);
    var mem := Written(laid, Absolute(laid, img));
    forall k | 0 <= k < 9
      ensures Inside(mem, Place(img, k)) && Place(img, k).size == Sizes(img)[k] && |mem| == Total(img)
    {
      WrittenTable(h, img, k);
      PlaceIs(img, k);
    }
    assert Inside(mem, Place(img, 0));
    PlacesInside(h, img, mem);
  }

  lemma HeaderFirst(mem: Str, h: Header)
    requires At(mem, 0, Flat(HeaderWords(h)))
    ensures ParseMem(mem) == Some(h)
  {
    hide HeaderOf, Flat;
    FlatAt(mem, 0, HeaderWords(h));
    HeaderRoundTrip(h);
    assert WordAt(mem, 0) == WordsAt(mem, 0, HEADER_WORDS)[0];
  }

  /** The records of a laid-out file are the ones written. */
  lemma WrittenRecords(h: Header, img: Image)
    requires Fits(img)
    ensures
      var laid := LaidHeader(h, img);
      var abs := Absolute(laid, img);
      var mem := Written(laid, abs);
      && TablesInFile(mem, laid)
      && FileImage(mem, laid).artists == abs.artists && FileImage(mem, laid).songs == abs.songs
  {
    hide LaidHeader, Written, Place, Flat, ArtistTable, SongTable, ArtistsAt, SongsAt, TablesInFile, RebaseArtist,
         RebaseSong;
    var laid := LaidHeader(h, img);
    var abs := Absolute(laid, img);
    var mem := Written(laid, abs);
    WrittenInFile(h, img);
    LaidPlaces(h, img);
    WrittenTable(h, img, 1);
    WrittenTable(h, img, 2);
    assert Parts(laid, abs)[1] == Flat(ArtistTable(abs.artists)) && Parts(laid, abs)[2] == Flat(SongTable(abs.songs));
    ArtistTableAt(mem, laid.singerInfo.at, abs.artists);
    SongTableAt(mem, laid.songInfo.at, abs.songs);
  }

  lemma LaidPlaces(h: Header, img: Image)
    ensures
      var laid := LaidHeader(h, img);
      && laid.singerInfo == Place(img, 1) && laid.songInfo == Place(img, 2) && laid.singerName == Place(img, 3)
      && laid.songName == Place(img, 4) && laid.songPy == Place(img, 5) && laid.singerPy == Place(img, 6)
      && laid.mkv == Place(img, 7) && laid.clip == Place(img, 8)
  {}

  lemma RebaseBack(x: U32, at: U32)
    ensures Wrap32(Wrap32(x + at) + (0 - at)) == x
  {}

  lemma ArtistsRebaseBack(artists: seq<ArtistRec>, name: U32, pinyin: U32)
    ensures RebaseArtists(RebaseArtists(artists, name, pinyin), 0 - name, 0 - pinyin) == artists
  {
    hide Wrap32;
    forall i | 0 <= i < |artists|
      ensures RebaseArtist(RebaseArtist(artists[i], name, pinyin), 0 - name, 0 - pinyin) == artists[i]
    {
      RebaseBack(artists[i].name, name);
      RebaseBack(artists[i].pinyin, pinyin);
    }
  }

  /** Clip offsets inside a table of size n starting at `clips`; the sentinel is kept apart. */
  ghost predicate ClipsBelow(songs: seq<SongRec>, clips: U32)
  {
    forall i | 0 <= i < |songs| :: songs[i].clips == NO_CLIPS || songs[i].clips + clips < NO_CLIPS
  }

  lemma SongsRebaseBack(songs: seq<SongRec>, name: U32, pinyin: U32, clips: U32)
    requires ClipsBelow(songs, clips)
    ensures RebaseSongs(RebaseSongs(songs, name, pinyin, clips), 0 - name, 0 - pinyin, 0 - clips) == songs
  {
    forall i | 0 <= i < |songs|
      ensures RebaseSong(RebaseSong(songs[i], name, pinyin, clips), 0 - name, 0 - pinyin, 0 - clips) == songs[i]
    {
      SongRebaseBack(songs[i], name, pinyin, clips);
    }
  }

  lemma SongRebaseBack(s: SongRec, name: U32, pinyin: U32, clips: U32)
    requires s.clips == NO_CLIPS || s.clips + clips < NO_CLIPS
    ensures RebaseSong(RebaseSong(s, name, pinyin, clips), 0 - name, 0 - pinyin, 0 - clips) == s
  {
    hide Wrap32;
    RebaseBack(s.name, name);
    RebaseBack(s.pinyin, pinyin);
    RebaseBack(s.clips, clips);
    WrapSmall(s.clips, clips);
  }

  lemma WrapSmall(x: U32, y: U32)
    ensures x + y < 0x1_0000_0000 ==> Wrap32(x + y) == x + y
  {}

  lemma TableBytesIs(mem: Str, t: Table, s: Str)
    requires At(mem, t.at, s) && t.size == |s| && Inside(mem, t)
    ensures TableBytes(mem, t) == s
  {
    SubIs(mem, t.at, s);
  }

  /** A string table of a laid-out file, read through the header. */
  lemma WrittenPool(h: Header, img: Image, k: nat)
    requires Fits(img) && 3 <= k < 9
    ensures
      var laid := LaidHeader(h, img);
      var mem := Written(laid, Absolute(laid, img));
      Inside(mem, Place(img, k)) && TableBytes(mem, Place(img, k)) == Parts(laid, Absolute(laid, img))[k]
  {
    hide LaidHeader, Written, Place;
    var laid := LaidHeader(h, img);
    WrittenTable(h, img, k);
    PlaceIs(img, k);
    TableBytesIs(Written(laid, Absolute(laid, img)), Place(img, k), Parts(laid, Absolute(laid, img))[k]);
  }

  lemma SoundClipsBelow(img: Image)
    requires Sound(img) && Fits(img)
    ensures ClipsBelow(img.songs, Place(img, 8).at)
  {
    hide Start, Total;
    PlaceIs(img, 8);
    forall i | 0 <= i < |img.songs|
      ensures img.songs[i].clips == NO_CLIPS || img.songs[i].clips + Place(img, 8).at < NO_CLIPS
    {
      assert SoundSong(img, img.songs[i]);
    }
  }

  /** Loading a laid-out index for a merge gives back the tables that were laid out. */
  lemma WrittenReloads(h: Header, img: Image)
    requires Fits(img) && Sound(img)
    ensures
      var laid := LaidHeader(h, img);
      var mem := Written(laid, Absolute(laid, img));
      TablesInFile(mem, laid) && WorkImage(mem, laid) == img
  {
    hide LaidHeader, Written, Place, TablesInFile, FileImage, TableBytes, RebaseArtists, RebaseSongs, Sound, Fits,
         Inside;
    var laid := LaidHeader(h, img);
    var mem := Written(laid, Absolute(laid, img));
    WrittenRecords(h, img);
    LaidPlaces(h, img);
    WrittenPool(h, img, 3);
    WrittenPool(h, img, 4);
    WrittenPool(h, img, 5);
    WrittenPool(h, img, 6);
    WrittenPool(h, img, 7);
    WrittenPool(h, img, 8);
    SoundClipsBelow(img);
    ArtistsRebaseBack(img.artists, laid.singerName.at, laid.singerPy.at);
    SongsRebaseBack(img.songs, laid.songName.at, laid.songPy.at, laid.clip.at);
  }

  // ---- reading through absolute offsets

  lemma TableBytesAt(mem: Str, t: Table)
    requires Inside(mem, t)
    ensures At(mem, t.at, TableBytes(mem, t))
  {}

  /** An offset counted back from the start of a table it lies in has not wrapped. */
  lemma OffsetInTable(off: U32, t: Table, mem: Str)
    requires Inside(mem, t) && |mem| < 0x1_0000_0000 && Wrap32(off + (0 - t.at)) < t.size
    ensures off == t.at + Wrap32(off + (0 - t.at))
  {}

  lemma StringThroughFile(mem: Str, t: Table, off: U32)
    requires Inside(mem, t) && |mem| < 0x1_0000_0000 && Terminated(TableBytes(mem, t), Wrap32(off + (0 - t.at)))
    ensures CString(mem, off) == CString(TableBytes(mem, t), Wrap32(off + (0 - t.at))) && Terminated(mem, off)
  {
    hide CString, Wrap32, Terminated, At;
    TableBytesAt(mem, t);
    TerminatedInside(TableBytes(mem, t), Wrap32(off + (0 - t.at)));
    OffsetInTable(off, t, mem);
    CStringWindow(mem, t.at, TableBytes(mem, t), Wrap32(off + (0 - t.at)));
  }

  lemma TerminatedInside(s: Str, off: nat)
    requires Terminated(s, off)
    ensures off < |s|
  {}

  /** off lies in the clip table, and the list there ends in the table or the table ends the file. */
  ghost predicate ClipClosed(mem: Str, t: Table, off: U32)
    requires Inside(mem, t)
  {
    && Wrap32(off + (0 - t.at)) < t.size
    && (t.at + t.size == |mem|
        || Wrap32(off + (0 - t.at)) + |ClipList(TableBytes(mem, t), Wrap32(off + (0 - t.at)))| < t.size)
  }

  lemma ClipsThroughFile(mem: Str, t: Table, off: U32)
    requires Inside(mem, t) && |mem| < 0x1_0000_0000 && ClipReadable(TableBytes(mem, t), Wrap32(off + (0 - t.at)))
    requires ClipClosed(mem, t, off)
    ensures ClipList(mem, off) == ClipList(TableBytes(mem, t), Wrap32(off + (0 - t.at))) && ClipReadable(mem, off)
  {
    hide ClipList, Wrap32;
    TableBytesAt(mem, t);
    OffsetInTable(off, t, mem);
    ClipListWindow(mem, t.at, TableBytes(mem, t), Wrap32(off + (0 - t.at)));
  }

  ghost predicate ClipsClosed(mem: Str, h: Header)
    requires TablesInFile(mem, h)
  {
    forall i | 0 <= i < h.songNums ::
      FileImage(mem, h).songs[i].clips == NO_CLIPS || ClipClosed(mem, h.clip, FileImage(mem, h).songs[i].clips)
  }

  lemma ArtistThroughFile(mem: Str, h: Header, a: ArtistRec)
    requires TablesInFile(mem, h)
    requires SoundArtist(WorkImage(mem, h), RebaseArtist(a, 0 - h.singerName.at, 0 - h.singerPy.at))
    ensures
      var b := RebaseArtist(a, 0 - h.singerName.at, 0 - h.singerPy.at);
      ReadArtist(FileImage(mem, h), a) == ReadArtist(WorkImage(mem, h), b) && SoundArtist(FileImage(mem, h), a)
  {
    hide ArtistsAt, SongsAt, CString, Terminated, TableBytes;
    StringThroughFile(mem, h.singerName, a.name);
    StringThroughFile(mem, h.singerPy, a.pinyin);
  }

  lemma SongThroughFile(mem: Str, h: Header, s: SongRec)
    requires TablesInFile(mem, h)
    requires SoundSong(WorkImage(mem, h), RebaseSong(s, 0 - h.songName.at, 0 - h.songPy.at, 0 - h.clip.at))
    requires s.clips == NO_CLIPS || ClipClosed(mem, h.clip, s.clips)
    ensures
      var t := RebaseSong(s, 0 - h.songName.at, 0 - h.songPy.at, 0 - h.clip.at);
      ReadSong(FileImage(mem, h), s) == ReadSong(WorkImage(mem, h), t) && SoundSong(FileImage(mem, h), s)
  {
    hide ArtistsAt, SongsAt, CString, Terminated, TableBytes, ClipList, ClipReadable;
    StringThroughFile(mem, h.songName, s.name);
    StringThroughFile(mem, h.songPy, s.pinyin);
    if s.clips != NO_CLIPS {
      ClipsThroughFile(mem, h.clip, s.clips);
    }
  }

  lemma FileArtists(mem: Str, h: Header)
    requires TablesInFile(mem, h)
    requires forall i | 0 <= i < |WorkImage(mem, h).artists| ::
      SoundArtist(WorkImage(mem, h), WorkImage(mem, h).artists[i])
    ensures Read(FileImage(mem, h)).artists == Read(WorkImage(mem, h)).artists
    ensures forall i | 0 <= i < |FileImage(mem, h).artists| ::
      SoundArtist(FileImage(mem, h), FileImage(mem, h).artists[i])
  {
    hide ArtistsAt, SongsAt, TableBytes, TablesInFile, SoundArtist, ReadArtist;
    var file, work := FileImage(mem, h), WorkImage(mem, h);
    forall i | 0 <= i < |file.artists|
      ensures ReadArtist(file, file.artists[i]) == ReadArtist(work, work.artists[i])
        && SoundArtist(file, file.artists[i])
    {
      assert SoundArtist(work, work.artists[i]);
      ArtistThroughFile(mem, h, file.artists[i]);
    }
  }

  lemma FileSongs(mem: Str, h: Header)
    requires TablesInFile(mem, h) && ClipsClosed(mem, h)
    requires forall i | 0 <= i < |WorkImage(mem, h).songs| :: SoundSong(WorkImage(mem, h), WorkImage(mem, h).songs[i])
    ensures Read(FileImage(mem, h)).songs == Read(WorkImage(mem, h)).songs
    ensures forall i | 0 <= i < |FileImage(mem, h).songs| :: SoundSong(FileImage(mem, h), FileImage(mem, h).songs[i])
  {
    hide ArtistsAt, TableBytes, TablesInFile, SoundSong, ReadSong, ClipClosed, SongOf;
    var file, work := FileImage(mem, h), WorkImage(mem, h);
    forall i | 0 <= i < |file.songs|
      ensures ReadSong(file, file.songs[i]) == ReadSong(work, work.songs[i]) && SoundSong(file, file.songs[i])
    {
      assert SoundSong(work, work.songs[i]);
      SongThroughFile(mem, h, file.songs[i]);
    }
  }

  /** A loaded index read through its absolute offsets says the same as its tables taken apart. */
  lemma FileReads(mem: Str, h: Header)
    requires TablesInFile(mem, h) && ClipsClosed(mem, h) && Sound(WorkImage(mem, h))
    ensures Read(FileImage(mem, h)) == Read(WorkImage(mem, h)) && Sound(FileImage(mem, h))
  {
    hide ArtistsAt, SongsAt, ClipsClosed, TablesInFile;
    FileArtists(mem, h);
    FileSongs(mem, h);
  }

  lemma WrittenClipsClosed(h: Header, img: Image)
    requires Fits(img) && Sound(img)
    ensures
      var laid := LaidHeader(h, img);
      var mem := Written(laid, Absolute(laid, img));
      TablesInFile(mem, laid) && ClipsClosed(mem, laid)
  {
    hide LaidHeader, Written, Place, TablesInFile, ArtistsAt, SongsAt, Sound, RebaseArtists, ClipReadable;
    var laid := LaidHeader(h, img);
    var mem := Written(laid, Absolute(laid, img));
    WrittenInFile(h, img);
    WrittenTable(h, img, 8);
    WrittenRecords(h, img);
    WrittenReloads(h, img);
    LaidPlaces(h, img);
    PlaceIs(img, 8);
    assert laid.clip.at + laid.clip.size == |mem|;
    forall i | 0 <= i < laid.songNums
      ensures
        var off := FileImage(mem, laid).songs[i].clips;
        off == NO_CLIPS || ClipClosed(mem, laid.clip, off)
    {
      SoundClip(img, i);
      WorkClip(mem, laid, i);
    }
  }

  lemma SoundClip(img: Image, i: nat)
    requires Sound(img) && i < |img.songs|
    ensures img.songs[i].clips == NO_CLIPS || img.songs[i].clips < |img.clips|
  {
    assert SoundSong(img, img.songs[i]);
  }

  lemma WorkClip(mem: Str, h: Header, i: nat)
    requires TablesInFile(mem, h) && i < h.songNums
    ensures
      var off := FileImage(mem, h).songs[i].clips;
      WorkImage(mem, h).songs[i].clips == if off == NO_CLIPS then NO_CLIPS else Wrap32(off + (0 - h.clip.at))
  {
    hide SongsAt, ArtistsAt;
    assert WorkImage(mem, h).songs[i]
      == RebaseSong(FileImage(mem, h).songs[i], 0 - h.songName.at, 0 - h.songPy.at, 0 - h.clip.at);
  }

  /** The bytes write_file leaves on disk. */
  function Saved(h: Header, img: Image): Str { Mask(Written(h, img)) }

  /** Laying tables out, masking them, and loading the file again changes no name, no pinyin, no
      artist and no clip list, whether read in place or taken apart for the next merge; and the
      header tells the file's length. */
  lemma SavedReads(h: Header, img: Image)
    requires Fits(img) && Sound(img)
    ensures
      var laid := LaidHeader(h, img);
      var file := Saved(laid, Absolute(laid, img));
      var mem := Unmask(file, 0);
      && |file| == laid.fileLen && ParseFile(file) == Some(laid)
      && TablesInFile(mem, laid) && ClipsClosed(mem, laid)
      && Sound(FileImage(mem, laid)) && Read(FileImage(mem, laid)) == Read(img)
      && WorkImage(mem, laid) == img
  {
    hide LaidHeader, Written, TablesInFile, ArtistsAt, SongsAt, Sound, Read, FileImage, WorkImage, ClipsClosed,
         ParseMem, Fits;
    var laid := LaidHeader(h, img);
    var mem := Written(laid, Absolute(laid, img));
    MaskInverts(mem);
    WrittenHeader(h, img);
    WrittenInFile(h, img);
    WrittenReloads(h, img);
    WrittenClipsClosed(h, img);
    FileReads(mem, laid);
  }

  /** What a merge reads of the index it starts from without checking it. */
  ghost predicate Loadable(mem: Str, h: Header)
  {
    TablesInFile(mem, h) && Sound(WorkImage(mem, h)) && ClipsClosed(mem, h)
  }

  /** file is an index that reads as cat, tells its own length, and can be merged into. */
  ghost predicate Holds(file: Str, h: Header, cat: Catalogue)
  {
    && ParseFile(file) == Some(h) && |file| == h.fileLen
    && Loadable(Unmask(file, 0), h) && Read(FileImage(Unmask(file, 0), h)) == cat
  }
}
