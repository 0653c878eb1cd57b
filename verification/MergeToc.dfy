/** merge_toc: two index files in, one index file out. */
module MergeToc {
  import opened Bytes
  import opened Records
  import opened Catalogue
  import opened Image
  import opened References
  import opened Conservation
  import opened ArtistOrigin
  import opened IndexMask
  import opened RecordBytes
  import opened TocFile
  import opened TocTable
  import opened PoolRoom
  import opened RunOn

  /** The update's string tables are no smaller than its strings together. */
  ghost predicate OwnStrings(mem: Str, h: Header)
    requires TablesInFile(mem, h)
  {
    var img := FileImage(mem, h);
    && Left(NameSizes(Read(img).artists), 0) <= h.singerName.size
    && Left(PinyinSizes(Read(img).artists), 0) <= h.singerPy.size
    && Left(SongNameSizes(Read(img).songs), 0) <= h.songName.size
    && Left(SongPinyinSizes(Read(img).songs), 0) <= h.songPy.size
    && Left(SongClipSizes(Read(img).songs), 0) <= h.clip.size
  }

  ghost predicate Ready(mem: Str, h: Header, uMem: Str, update: Header)
  {
    && Loadable(mem, h) && TablesInFile(uMem, update) && Usable(FileImage(uMem, update)) && OwnStrings(uMem, update)
    && update.songNums < 0x1_0000 && Together(h, RoomFor(update))
  }

  ghost function Merged(mem: Str, h: Header, uMem: Str, update: Header, less: Less): Catalogue
    requires Ready(mem, h, uMem, update)
  {
    UsableReads(FileImage(uMem, update));
    Merge(Read(FileImage(mem, h)), Read(FileImage(uMem, update)), Marks(FileImage(uMem, update)), less)
  }

  lemma Counts(h: Header, update: Header)
    requires update.songNums < 0x1_0000 && Together(h, RoomFor(update))
    ensures Allocatable(h, RoomFor(update)) && RoomFor(update).songs == update.songNums
    ensures h.singerNums + update.singerNums < NO_ARTIST && h.songNums + update.songNums < 0x1_0000
  {}

  lemma WorkSizes(mem: Str, h: Header, uMem: Str, update: Header)
    requires Ready(mem, h, uMem, update)
    ensures TablesInFile(mem, h) && Sound(WorkImage(mem, h)) && Allocatable(h, RoomFor(update))
    ensures UsableArtists(FileImage(uMem, update)) && UsableSongs(FileImage(uMem, update))
    ensures UpdateReadable(Read(FileImage(uMem, update)))
    ensures |FileImage(uMem, update).artists| == update.singerNums && |FileImage(uMem, update).songs| == update.songNums
    ensures Read(FileImage(mem, h)) == Read(WorkImage(mem, h))
  {
    hide Sound, WorkImage, ArtistsAt, SongsAt, ClipsClosed, TablesInFile, UsableArtists, UsableSongs, Read;
    FileReads(mem, h);
    UsableSongsRead(FileImage(uMem, update));
  }

  lemma StillNotNewer(h: Header, update: Header, kind: Kind, img: Image)
    ensures
      var laid := LaidHeader(TakeVersion(h, update, kind), img);
      !Newer(update, laid, kind) && VersionsTaken(h.versions, update.versions, kind, laid.versions)
  {
    hide TakeVersion, VersionsTaken;
    TakenIsNotNewer(h, update, kind, update);
    assert LaidHeader(TakeVersion(h, update, kind), img).versions == TakeVersion(h, update, kind).versions;
  }

  /** In the file: song i of an update is marked exactly when the byte behind the clips its record leads to has
      the delete flag, whatever its other flags. */
  lemma MarkedInFile(mem: Str, update: Header, i: nat, e: Extra)
    requires TablesInFile(mem, update) && UsableSongs(FileImage(mem, update)) && i < update.songNums
    requires ExtraAt(mem, Full(mem, update.songInfo.at + 56 * i + 52), e)
    ensures |Marks(FileImage(mem, update))| == update.songNums
    ensures Marks(FileImage(mem, update))[i] <==> e.delete
  {
    hide UsableSongs, Marks, ArtistsAt, ExtraAt, Full, SongOf, WordsAt;
    var at := update.songInfo.at + 56 * i;
    SongFields(mem, at);
    assert at == update.songInfo.at + 4 * SONG_WORDS * i;
    MarksIff(FileImage(mem, update), i, e);
  }

  /** The update's clip lists, stored one after the other, run on from nothing. */
  ghost predicate ListsClear(mem: Str, h: Header, uMem: Str, update: Header)
    requires Ready(mem, h, uMem, update)
  {
    UpdateListsFit(WorkImage(mem, h), FileImage(uMem, update))
  }

  /** The part of merge_toc after the version check. */
  method MergeFiles(mem: Str, h: Header, uMem: Str, update: Header, kind: Kind, less: Less)
    returns (file: Str, laid: Header)
    requires Ready(mem, h, uMem, update)
    ensures HoldsLike(file, laid, Merged(mem, h, uMem, update, less), ListsClear(mem, h, uMem, update))
    ensures !Newer(update, laid, kind) && VersionsTaken(h.versions, update.versions, kind, laid.versions)
  {
    hide UpdateListsFit, VersionsTaken, SongListsFit, Like, SameClips, HoldsLike, Read, Sound, TocTable.Apart,
         TocTable.Held,
         FileImage, WorkImage, TablesInFile, UsableArtists, UsableSongs,
         Marks, UpdateReadable, ClipsClosed,
         LaidHeader, TakeVersion, Newer, ParseFile, Total, Saved, Unmask, Absolute, Written, Left,
         NameSizes, PinyinSizes, SongNameSizes, SongPinyinSizes, SongClipSizes, MergeArtists, MergeSongs, Together,
         Fits, Wrap16, Allocatable;
    Counts(h, update);
    WorkSizes(mem, h, uMem, update);
    WorkImageSizes(mem, h);
    ReadSizes(FileImage(uMem, update));
    var up := FileImage(uMem, update);
    var toc := new TocTable(mem, h, RoomFor(update));
    toc.MergeSingerInfo(up, less);
    UpdateListsFitIff(WorkImage(mem, h), toc.img, up);
    toc.MergeSongInfo(up, less);
    ghost var img := toc.img;
    FitsAfter(img, h, RoomFor(update));
    ghost var taken := TakeVersion(h, update, kind);
    laid := toc.PrepareWriteFile(h, update, kind);
    WrittenInFile(taken, img);
    SavedReads(taken, img);
    StillNotNewer(h, update, kind, img);
    file := toc.WriteFile(laid);
    SavedHolds(file, taken, img);
    LikeHolds(file, laid, img, Merged(mem, h, uMem, update, less), ListsClear(mem, h, uMem, update));
  }

  lemma SavedHolds(file: Str, h: Header, img: Image)
    requires Fits(img) && Sound(img) && file == Saved(LaidHeader(h, img), Absolute(LaidHeader(h, img), img))
    ensures Holds(file, LaidHeader(h, img), Read(img))
  {
    hide Read, Sound, FileImage, WorkImage, TablesInFile, ClipsClosed, LaidHeader, Absolute, Saved, ParseFile, Unmask,
         Fits;
    SavedReads(h, img);
  }

  /** merge_toc goes on to merge: both headers parse and the update is newer. */
  ghost predicate Merges(main: Str, upd: Str, kind: Kind)
  {
    ParseFile(main).Some? && ParseFile(upd).Some? && Newer(ParseFile(upd).value, ParseFile(main).value, kind)
  }

  /** Where a header has the release of the kind. */
  function ReleaseAt(kind: Kind): nat
  {
    match kind case Disc => 4 case ScDisc => 8 case XUser => 12 case User => 16 case YouTube => 0
  }

  predicate MaskedHead(file: Str)
  {
    |file| >= 104 && file[0] == 0xEE && file[1] == 0xD6 && file[2] == 0xDE && file[3] == 0xA7
  }

  predicate LaterAt(uMem: Str, mem: Str, at: nat)
    requires at + 4 <= |uMem| && at + 4 <= |mem|
  {
    var version, revision, v, r := Half(uMem, at), Half(uMem, at + 2), Half(mem, at), Half(mem, at + 2);
    Later(version, revision, v, r) != Carries(version, revision, v, r)
  }

  /** merge_toc goes on to merge exactly when both files begin as an index does, and the update's release of the
      kind, read from its header's bytes, comes later; releases with a revision of 100 and more may be
      taken the other way round. */
  lemma MergesIff(main: Str, upd: Str, kind: Kind)
    ensures Merges(main, upd, kind) <==>
      && kind != YouTube && MaskedHead(main) && MaskedHead(upd)
      && LaterAt(Unmask(upd, 0), Unmask(main, 0), ReleaseAt(kind))
  {
    hide Newer, Later, Carries, Half, HeaderOf, WordsAt, WordAt, UnmaskByte;
    ParsesIff(main);
    ParsesIff(upd);
    if MaskedHead(main) && MaskedHead(upd) {
      HeaderFields(Unmask(main, 0));
      HeaderFields(Unmask(upd, 0));
      NewerIff(ParseFile(upd).value, ParseFile(main).value, kind);
    }
  }

  ghost predicate ReadyFiles(main: Str, upd: Str)
    requires ParseFile(main).Some? && ParseFile(upd).Some?
  {
    Ready(Unmask(main, 0), ParseFile(main).value, Unmask(upd, 0), ParseFile(upd).value)
  }

  /** merge_toc. No main index: the update is copied. An unreadable header: -3 and no output.
      No newer version: the main index is copied. Otherwise the output holds the merge, its clip lists
      exactly when they run on from nothing. */
  method MergeToc(main: Option<Str>, upd: Str, kind: Kind, less: Less) returns (status: int, out: Option<Str>)
    requires |upd| < 0x1_0000_0000 && (main.Some? ==> |main.value| < 0x1_0000_0000)
    requires main.Some? && Merges(main.value, upd, kind) ==> ReadyFiles(main.value, upd)
    ensures main.None? ==> status == 0 && out == Some(upd)
    ensures main.Some? && (ParseFile(main.value).None? || ParseFile(upd).None?) ==> status == -3 && out == None
    ensures main.Some? && ParseFile(main.value).Some? && ParseFile(upd).Some? && !Merges(main.value, upd, kind) ==>
      status == 0 && out == main
    ensures main.Some? && Merges(main.value, upd, kind) ==>
      && status == 0 && out.Some? && ParseFile(out.value).Some?
      && var mem, h := Unmask(main.value, 0), ParseFile(main.value).value;
      && var uMem, update := Unmask(upd, 0), ParseFile(upd).value;
      && HoldsLike(out.value, ParseFile(out.value).value, Merged(mem, h, uMem, update, less),
                   ListsClear(mem, h, uMem, update))
      && !Merges(out.value, upd, kind)
      && VersionsTaken(h.versions, update.versions, kind, ParseFile(out.value).value.versions)
  {
    hide Newer, VersionsTaken, ParseFile, ParseFileHeader, Ready, Merged, ListsClear;
    if main.None? { return 0, Some(upd); }
    HeadersAgree(main.value);
    HeadersAgree(upd);
    var header, update := ParseFileHeader(main.value), ParseFileHeader(upd);
    if header.None? || update.None? { return -3, None; }
    if !Newer(update.value, header.value, kind) { return 0, main; }
    var mem := UnmaskWhole(main.value);
    var uMem := UnmaskWhole(upd);
    var file, laid := MergeFiles(mem, header.value, uMem, update.value, kind, less);
    return 0, Some(file);
  }

  /** What a merged index file says. The songs that were there: each one not deleted is there, in order,
      with its strings, clips, codes and artists. The others are, up to order, the accepted songs of
      the update, `stored`, linked to the singers they named in it. No slot leads out of the table,
      and codes that were distinct are. */
  lemma MergedKeeps(mem: Str, h: Header, uMem: Str, update: Header, less: Less) returns (stored: seq<Entry>)
    requires Ready(mem, h, uMem, update)
    requires SongsInTable(FileImage(mem, h).songs, h.singerNums)
    requires SongsInTable(FileImage(uMem, update).songs, update.singerNums)
    ensures
      var cat, from := Read(FileImage(mem, h)), Read(FileImage(uMem, update));
      var marks := Marks(FileImage(uMem, update));
      var after := Merged(mem, h, uMem, update, less);
      && |marks| == |from.songs|
      && var kept := DeletePass(cat.songs, from.songs, marks, |from.songs|);
      && Pairwise(kept, Pick(after.songs, Codes(kept), true), Following(cat.artists, after.artists))
      && Pairwise(Accepted(kept, from.songs, marks, |from.songs|), stored, Linking(from.artists, after.artists))
      && multiset(Pick(after.songs, Codes(kept), false)) == multiset(stored)
      && |after.songs| == |kept| + |stored|
      && SongsInTable(after.songs, |after.artists|)
      && (DistinctCodes(cat.songs) ==> DistinctCodes(after.songs))
  {
    hide FileImage, Marks, Merge, DeletePass, Pick, Codes, TablesInFile, OwnStrings, UsableArtists, UsableSongs,
         DistinctCodes, InTable, Sound, ClipsClosed, Accepted, Following, Linking;
    var cat, from, marks := Read(FileImage(mem, h)), Read(FileImage(uMem, update)), Marks(FileImage(uMem, update));
    MergeableFiles(mem, h, uMem, update);
    MergeKeepsOldSongs(cat, from, marks, less);
    stored := MergeAddsNewSongs(cat, from, marks, less);
    MergeInTable(cat, from, marks, less);
    if DistinctCodes(cat.songs) { MergeKeepsCodesDistinct(cat, from, marks, less); }
  }

  /** The artists of a merged index file, record by record: where each comes from, its roles and its counts. */
  lemma MergedArtists(mem: Str, h: Header, uMem: Str, update: Header, less: Less) returns (from: seq<Origin>)
    requires Ready(mem, h, uMem, update)
    ensures
      var people := Read(FileImage(uMem, update)).artists;
      Account(Read(FileImage(mem, h)).artists, people, |people|, from, Merged(mem, h, uMem, update, less).artists,
              false)
  {
    hide FileImage, Marks, Read, TablesInFile, OwnStrings, UsableArtists, UsableSongs, Sound, ClipsClosed, Account,
         MergeArtists, MergeSongs;
    var people := Read(FileImage(uMem, update)).artists;
    from := MergeArtistsMakes(Read(FileImage(mem, h)), people, |people|, less);
  }

  lemma MergeableFiles(mem: Str, h: Header, uMem: Str, update: Header)
    requires Ready(mem, h, uMem, update)
    requires SongsInTable(FileImage(mem, h).songs, h.singerNums)
    requires SongsInTable(FileImage(uMem, update).songs, update.singerNums)
    ensures UsableSongs(FileImage(uMem, update))
    ensures Mergeable(Read(FileImage(mem, h)), Read(FileImage(uMem, update)), Marks(FileImage(uMem, update)))
  {
    hide ClipsClosed, Sound, WorkImage, OwnStrings, UsableArtists, UsableSongs, InTable, ArtistsAt, SongsAt,
         Allocatable;
    ReadInTable(FileImage(mem, h), h.singerNums);
    ReadInTable(FileImage(uMem, update), update.singerNums);
  }

  lemma ReadInTable(img: Image, n: nat)
    requires SongsInTable(img.songs, n)
    ensures SongsInTable(Read(img).songs, n)
  {
    hide InTable;
    forall j | 0 <= j < |img.songs|
      ensures InTable(Read(img).songs[j].singers, n) && InTable(Read(img).songs[j].authors, n)
    {
      assert InTable(img.songs[j].singers, n) && InTable(img.songs[j].authors, n);
    }
  }
}
