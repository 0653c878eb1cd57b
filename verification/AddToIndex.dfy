/** insert_update_song for one index: artists and songs handed in as strings, an index file out. */
module AddToIndex {
  import opened Bytes
  import opened Records
  import opened Catalogue
  import opened Image
  import opened References
  import opened Conservation
  import opened RecordBytes
  import opened TocFile
  import opened TocTable
  import opened AddArtist
  import opened ArtistOrigin
  import opened AddSong
  import opened AddToToc
  import opened PoolRoom
  import opened RunOn

  /** What prepare_insert_song sets aside for the request. */
  function RoomOf(people: seq<Artist>, songs: seq<Entry>): Room
  {
    Room(|people|, |songs|, Sum(NameSizes(people), |people|), Sum(SongNameSizes(songs), |songs|),
         Sum(SongPinyinSizes(songs), |songs|), Sum(PinyinSizes(people), |people|), 0,
         Sum(SongClipSizes(songs), |songs|))
  }

  ghost predicate UsableRequest(people: seq<Artist>, songs: seq<Entry>)
  {
    UsableArtistRequest(people) && UsableSongRequest(songs) && SongsInTable(songs, |people|)
  }

  /** insertIndex before insert_artist: -1. */
  function Unset(n: nat): seq<U32> { seq(n, _ => 0xFFFF_FFFF) }

  ghost function PlacedArtists(
    cat: Catalogue, people: seq<Artist>, indexes: seq<U32>, holes: seq<Artist>, less: Less): (run: AddRun)
    requires |indexes| == |people| == |holes|
    ensures |run.indexes| == |people|
  {
    AddArtists(cat, people, indexes, |people|, holes, less)
  }

  /** The index after the request, given the insertIndex values it comes with and what the array of artists held
      where the table took in a cell unwritten. */
  ghost function Added(
    cat: Catalogue, people: seq<Artist>, indexes: seq<U32>, holes: seq<Artist>, songs: seq<Entry>,
    less: Less): Catalogue
    requires |indexes| == |people| == |holes| && SongsInTable(songs, |people|)
  {
    var run := PlacedArtists(cat, people, indexes, holes, less);
    Catalogue(run.cat.artists, PutSongs(run.cat.songs, songs, people, run.indexes, |songs|, less).songs)
  }

  lemma {:induction false} PickPairwise(a: seq<Entry>, b: seq<Entry>, rel: Relation, codes: set<U32>, want: bool)
    requires Pairwise(a, b, rel) && KeepsCodes(rel)
    ensures Pairwise(Pick(a, codes, want), Pick(b, codes, want), rel)
  {
    if |a| > 0 {
      assert rel(a[0], b[0]);
      assert Pairwise(a[1..], b[1..], rel);
      PickPairwise(a[1..], b[1..], rel, codes, want);
    }
  }

  /** What the request leaves of the index it was made to, whatever values insertIndex comes with: every
      song whose code it does not name is there as before, in order, with its artists; every song it
      names has a record, copied whole if it was stored, with the artists it names exactly when no
      later one of its code wrote over them. */
  lemma AddedMeans(
    cat: Catalogue, people: seq<Artist>, indexes: seq<U32>, holes: seq<Artist>, songs: seq<Entry>, less: Less)
    requires SongsInTable(cat.songs, |cat.artists|) && |cat.artists| + |people| < NO_ARTIST
    requires |indexes| == |people| == |holes| && Askable(songs, people) && Insertable(cat.artists, people, |people|)
    ensures SongsInTable(songs, |people|)
    ensures
      var after := Added(cat, people, indexes, holes, songs, less);
      Pairwise(Pick(cat.songs, Codes(songs), false), Pick(after.songs, Codes(songs), false),
               Following(cat.artists, after.artists))
    ensures
      var run := PlacedArtists(cat, people, indexes, holes, less);
      && PutSongs(run.cat.songs, songs, people, run.indexes, |songs|, less).songs
         == Added(cat, people, indexes, holes, songs, less).songs
      && forall i | 0 <= i < |songs| :: EndsUp(run.cat.songs, songs, people, run, |songs|, less, i)
  {
    hide PutSongs, AddArtists, AllDesignate, Insertable, EndsUp, Pick, Askable, EntryFollows;
    var run := PlacedArtists(cat, people, indexes, holes, less);
    AskableInTable(songs, people);
    AddArtistsFollows(cat, people, indexes, |people|, holes, less);
    AddArtistsGrows(cat, people, indexes, |people|, holes, less);
    IndexesRightIff(cat, people, indexes, holes, less);
    FollowingKeepsCodes(cat.artists, run.cat.artists);
    PickPairwise(cat.songs, run.cat.songs, Following(cat.artists, run.cat.artists), Codes(songs), false);
    PutSongsKeeps(run.cat.songs, songs, people, run.indexes, |songs|, less);
    forall i | 0 <= i < |songs|
      ensures EndsUp(run.cat.songs, songs, people, run, |songs|, less, i)
    {
      PutSongsLandIff(run.cat.songs, songs, people, run, |songs|, less, i);
    }
  }

  /** The artists of such an index: those it had, in their order, with the roles they had and the request asks for,
      and each new one once, made of the first of its name in the request, with the roles of all of them. The
      insertIndex of every artist leads to its own. */
  lemma AddedArtists(
    cat: Catalogue, people: seq<Artist>, indexes: seq<U32>, holes: seq<Artist>, songs: seq<Entry>, less: Less)
    returns (from: seq<Origin>)
    requires |cat.artists| + |people| < NO_ARTIST && SongsInTable(songs, |people|)
    requires |indexes| == |people| == |holes| && Insertable(cat.artists, people, |people|)
    ensures Account(cat.artists, people, |people|, from, Added(cat, people, indexes, holes, songs, less).artists, true)
    ensures
      var run := PlacedArtists(cat, people, indexes, holes, less);
      forall i | 0 <= i < |people| ::
        && run.indexes[i] < |from|
        && (New(cat.artists, people, i) ==> from[run.indexes[i]] == Made(i))
        && match from[run.indexes[i]]
           case Old(j) => j < |cat.artists| && cat.artists[j].name == people[i].name
           case Made(k) => k <= i && New(cat.artists, people, k) && people[k].name == people[i].name
  {
    hide AddArtists, Account, Insertable, New, PutSongs;
    var run := PlacedArtists(cat, people, indexes, holes, less);
    from := AddArtistsMakes(cat, people, indexes, |people|, holes, less);
    IndexesRightIff(cat, people, indexes, holes, less);
    forall i | 0 <= i < |people|
      ensures run.indexes[i] < |from| && (New(cat.artists, people, i) ==> from[run.indexes[i]] == Made(i))
      ensures
        match from[run.indexes[i]]
        case Old(j) => j < |cat.artists| && cat.artists[j].name == people[i].name
        case Made(k) => k <= i && New(cat.artists, people, k) && people[k].name == people[i].name
    {
      LeadsTo(cat.artists, people, run, from, i);
    }
  }

  lemma FollowingKeepsCodes(from: seq<Artist>, to: seq<Artist>)
    ensures KeepsCodes(Following(from, to))
  {}

  /** The sizing loops of prepare_insert_song; insertIndex is reset on the way. */
  method Measure(pArtist: array<Asked>, songs: seq<Entry>) returns (room: Room)
    modifies pArtist
    ensures People(pArtist[..]) == People(old(pArtist[..])) && Indexes(pArtist[..]) == Unset(pArtist.Length)
    ensures room == RoomOf(People(old(pArtist[..])), songs)
  {
    hide Sum;
    ghost var people := People(pArtist[..]);
    NoSum(NameSizes(people));
    NoSum(PinyinSizes(people));
    NoSum(SongNameSizes(songs));
    NoSum(SongPinyinSizes(songs));
    NoSum(SongClipSizes(songs));
    var names: nat, pys: nat := 0, 0;
    for i := 0 to pArtist.Length
      invariant forall k | 0 <= k < pArtist.Length :: pArtist[k].person == people[k]
      invariant forall k | 0 <= k < i :: pArtist[k].insertIndex == 0xFFFF_FFFF
      invariant names == Sum(NameSizes(people), i) && pys == Sum(PinyinSizes(people), i)
    {
      SumNext(NameSizes(people), i);
      SumNext(PinyinSizes(people), i);
      names := names + |pArtist[i].person.name| + 1;
      pys := pys + |pArtist[i].person.pinyin| + 1;
      pArtist[i] := pArtist[i].(insertIndex := 0xFFFF_FFFF);
    }
    assert People(pArtist[..]) == people;
    assert Indexes(pArtist[..]) == Unset(pArtist.Length);
    var songNames: nat, songPys: nat, clips: nat := 0, 0, 0;
    for i := 0 to |songs|
      invariant People(pArtist[..]) == people && Indexes(pArtist[..]) == Unset(pArtist.Length)
      invariant songNames == Sum(SongNameSizes(songs), i) && songPys == Sum(SongPinyinSizes(songs), i)
      invariant clips == Sum(SongClipSizes(songs), i)
    {
      SumNext(SongNameSizes(songs), i);
      SumNext(SongPinyinSizes(songs), i);
      SumNext(SongClipSizes(songs), i);
      songNames := songNames + |songs[i].name| + 1;
      songPys := songPys + |songs[i].pinyin| + 1;
      clips := clips + ClipBytes(songs[i]);
    }
    room := Room(pArtist.Length, |songs|, names, songNames, songPys, pys, 0, clips);
  }

  ghost predicate Ready(mem: Str, h: Header, people: seq<Artist>, songs: seq<Entry>)
  {
    && Loadable(mem, h) && UsableRequest(people, songs) && Together(h, RoomOf(people, songs))
    && Writable(Read(FileImage(mem, h)).artists, people)
  }

  lemma ReadyParts(mem: Str, h: Header, people: seq<Artist>, songs: seq<Entry>)
    requires Ready(mem, h, people, songs)
    ensures TablesInFile(mem, h) && Sound(WorkImage(mem, h)) && Allocatable(h, RoomOf(people, songs))
    ensures h.singerNums + |people| < NO_ARTIST
    ensures UsableArtistRequest(people) && UsableSongRequest(songs) && SongsInTable(songs, |people|)
    ensures Read(FileImage(mem, h)) == Read(WorkImage(mem, h))
    ensures Writable(Read(WorkImage(mem, h)).artists, people)
  {
    hide Sound, WorkImage, FileImage, ClipsClosed, TablesInFile, Read, Writable, UsableArtistRequest,
         UsableSongRequest, Askable, Sum;
    FileReads(mem, h);
  }

  /** The array holds every artist record that is written, one place too far or not. */
  ghost predicate Writable(artists: seq<Artist>, people: seq<Artist>) { |people| > 0 ==> Spared(artists, people) }

  /** Song i of the request will be stored, not found. */
  ghost predicate StoredIn(songs: seq<Entry>, updates: seq<Entry>, i: nat)
    requires i < |updates|
  {
    updates[i].info.language >= 3 || !Known(songs, updates, i)
  }

  /** Of the songs that will be stored, only the first has a long clip list, if any, and that only if no list
      of the index runs into the end of its pool. */
  ghost predicate RequestListsFit(img: Image, updates: seq<Entry>)
  {
    forall i | 0 <= i < |updates| && StoredIn(Read(img).songs, updates, i) && Long(updates[i]) ::
      Closed(img) && forall j: nat | j < i :: !StoredIn(Read(img).songs, updates, j)
  }

  lemma RequestListsFitIff(
    before: Image, img: Image, songs: seq<Entry>, people: seq<Artist>, indexes: seq<U32>, less: Less)
    requires SameClips(before, img) && |people| == |indexes| && SongsInTable(songs, |people|)
    ensures
      var added := PutSongs(Read(img).songs, songs, people, indexes, |songs|, less).added;
      RequestListsFit(before, songs) <==> AddedFit(Closed(img), songs, added, |songs|)
  {
    hide PutSongs, Closed, Long, StoredIn, SameClips, Read, SongsInTable;
    var added := PutSongs(Read(img).songs, songs, people, indexes, |songs|, less).added;
    SameClipsClosed(before, img);
    forall i | 0 <= i < |songs|
      ensures i in added <==> StoredIn(Read(before).songs, songs, i)
    {
      AddedIsStored(before, img, songs, people, indexes, less, i);
    }
  }

  lemma AddedIsStored(
    before: Image, img: Image, songs: seq<Entry>, people: seq<Artist>, indexes: seq<U32>, less: Less, i: nat)
    requires SameClips(before, img) && |people| == |indexes| && SongsInTable(songs, |people|) && i < |songs|
    ensures i in PutSongs(Read(img).songs, songs, people, indexes, |songs|, less).added
       <==> StoredIn(Read(before).songs, songs, i)
  {
    hide PutSongs, Known, SameClips, Read, SongsInTable;
    StoredIff(Read(img).songs, songs, people, indexes, |songs|, less, i);
    SameKnown(before, img, songs, i);
  }

  lemma SameKnown(before: Image, img: Image, songs: seq<Entry>, i: nat)
    requires SameClips(before, img) && i < |songs|
    ensures Known(Read(before).songs, songs, i) <==> Known(Read(img).songs, songs, i)
  {
    ReadSizes(before);
    ReadSizes(img);
    assert forall j | 0 <= j < |img.songs| :: Read(before).songs[j].info == Read(img).songs[j].info;
  }

  /** insert_artist and insert_song for one index: the table reads as it should in everything but clip lists,
      and in those exactly when they run on from nothing. */
  method Fill(toc: TocTable, pArtist: array<Asked>, songs: seq<Entry>, less: Less) returns (ghost holes: seq<Artist>)
    requires toc.Valid() && toc.Tail() && UsableArtistRequest(People(pArtist[..])) && UsableSongRequest(songs)
    requires SongsInTable(songs, pArtist.Length)
    requires ArtistsFit(toc, People(pArtist[..])) && SongsFit(toc, songs)
    requires Writable(Read(toc.img).artists, People(pArtist[..]))
    modifies toc`img, toc`singerNums, toc`songNums, toc`singerNameSize, toc`singerPySize
    modifies toc`songNameSize, toc`songPySize, toc`clipSize
    modifies toc.pArtistInfo, toc.pSongInfo, toc.pSingerName, toc.pSingerPYName
    modifies toc.pSongName, toc.pSongPyName, toc.pVideoJPGName, toc.pMapIndex, pArtist
    ensures toc.Valid() && People(pArtist[..]) == People(old(pArtist[..]))
    ensures |holes| == pArtist.Length
    ensures
      var cat, people := old(Read(toc.img)), People(old(pArtist[..]));
      var added := Added(cat, people, Indexes(old(pArtist[..])), holes, songs, less);
      && Read(toc.img).artists == added.artists && Like(toc.img, added.songs, RequestListsFit(old(toc.img), songs))
      && Indexes(pArtist[..]) == PlacedArtists(cat, people, Indexes(old(pArtist[..])), holes, less).indexes
  {
    hide Read, Insertable, UsableArtistRequest, UsableSongRequest, SongsInTable, TocTable.Apart, TocTable.Held, Sound,
         People, Indexes, AddArtists, PutSongs, AllDesignate, NameSizes, PinyinSizes, Sum, SumOf, Like, AddedFit,
         RequestListsFit, SameClips, Closed, Spared, TocTable.Tail;
    ghost var before := toc.img;
    holes := InsertArtist(toc, pArtist, less);
    RequestListsFitIff(before, toc.img, songs, People(pArtist[..]), Indexes(pArtist[..]), less);
    ghost var run := InsertSong(toc, songs, pArtist, less);
  }

  /** The arrays are those that prepare_insert_song made for the request. */
  ghost predicate MadeFor(toc: TocTable, h: Header, room: Room)
  {
    && toc.pArtistInfo.Length == h.singerNums + room.artists && toc.pSongInfo.Length == h.songNums + room.songs
    && toc.pSingerName.Length == h.singerName.size + room.singerName
    && toc.pSongName.Length == h.songName.size + room.songName
    && toc.pSongPyName.Length == h.songPy.size + room.songPy
    && toc.pSingerPYName.Length == h.singerPy.size + room.singerPy
    && toc.pVideoMKVName.Length == h.mkv.size + room.mkv && toc.pVideoJPGName.Length == h.clip.size + room.clip
    && toc.pMapIndex.Length == room.songs
  }

  /** prepare_write_file and write_file. */
  method Save(toc: TocTable, h: Header, ghost room: Room) returns (file: Str, laid: Header)
    requires toc.Valid() && MadeFor(toc, h, room) && Together(h, room)
    modifies toc`img, toc.pArtistInfo, toc.pSongInfo
    ensures Holds(file, laid, old(Read(toc.img))) && laid.versions == h.versions
  {
    hide Read, Sound, LaidHeader, ParseFile, Total, Saved, Absolute, Written, Together, Fits, Allocatable,
         TocTable.Apart, TocTable.Held;
    ghost var img := toc.img;
    FitsAfter(img, h, room);
    laid := toc.PrepareWriteFile(h, h, YouTube);
    WrittenInFile(h, img);
    SavedReads(h, img);
    KeptVersions(h, img);
    file := toc.WriteFile(laid);
  }

  /** prepare_insert_song for one index. */
  method Prepare(mem: Str, h: Header, pArtist: array<Asked>, songs: seq<Entry>) returns (toc: TocTable)
    requires Ready(mem, h, People(pArtist[..]), songs)
    modifies pArtist
    ensures People(pArtist[..]) == People(old(pArtist[..])) && Indexes(pArtist[..]) == Unset(pArtist.Length)
    ensures toc.Valid() && toc.Tail() && MadeFor(toc, h, RoomOf(People(pArtist[..]), songs)) && TablesInFile(mem, h)
    ensures toc.img == WorkImage(mem, h) && Read(toc.img) == Read(FileImage(mem, h))
    ensures toc.singerNums == h.singerNums && toc.songNums == h.songNums
    ensures toc.singerNameSize == h.singerName.size && toc.singerPySize == h.singerPy.size
    ensures toc.songNameSize == h.songName.size && toc.songPySize == h.songPy.size && toc.clipSize == h.clip.size
    ensures fresh(toc) && fresh(toc.pArtistInfo) && fresh(toc.pSongInfo) && fresh(toc.pMapIndex)
    ensures fresh(toc.pSingerName) && fresh(toc.pSingerPYName) && fresh(toc.pSongName) && fresh(toc.pSongPyName)
    ensures fresh(toc.pVideoMKVName) && fresh(toc.pVideoJPGName)
  {
    hide Read, Sound, FileImage, WorkImage, TablesInFile, ClipsClosed, People, Indexes, Sum, Together, Allocatable,
         Ready,
         Writable, UsableArtistRequest, UsableSongRequest, SongsInTable, TocTable.Apart, TocTable.Held, RoomOf;
    ReadyParts(mem, h, People(pArtist[..]), songs);
    WorkImageSizes(mem, h);
    var room := Measure(pArtist, songs);
    toc := new TocTable(mem, h, room);
  }

  lemma ReadyFits(toc: TocTable, mem: Str, h: Header, people: seq<Artist>, songs: seq<Entry>)
    requires Ready(mem, h, people, songs) && MadeFor(toc, h, RoomOf(people, songs))
    requires TablesInFile(mem, h) && Read(toc.img) == Read(FileImage(mem, h))
    requires toc.singerNums == h.singerNums && toc.songNums == h.songNums
    requires toc.singerNameSize == h.singerName.size && toc.singerPySize == h.singerPy.size
    requires toc.songNameSize == h.songName.size && toc.songPySize == h.songPy.size && toc.clipSize == h.clip.size
    ensures ArtistsFit(toc, people) && SongsFit(toc, songs) && Together(h, RoomOf(people, songs))
    ensures UsableArtistRequest(people) && UsableSongRequest(songs) && SongsInTable(songs, |people|)
    ensures Writable(Read(toc.img).artists, people)
  {
    hide Sum, Writable, UsableArtistRequest, UsableSongRequest, Read, FileImage, TablesInFile;
    ReadyParts(mem, h, people, songs);
  }

  /** insert_update_song, from the two loaded indexes on: both are prepared, the sub index is filled, then
      the main index, which meets the insertIndex values that the sub index left. */
  method InsertUpdateSong(
    mainMem: Str, mainH: Header, subMem: Str, subH: Header, pArtist: array<Asked>, songs: seq<Entry>, less: Less)
    returns (mainFile: Str, mainLaid: Header, subFile: Str, subLaid: Header,
             ghost mainHoles: seq<Artist>, ghost subHoles: seq<Artist>)
    requires Ready(mainMem, mainH, People(pArtist[..]), songs) && Ready(subMem, subH, People(pArtist[..]), songs)
    modifies pArtist
    ensures SongsInTable(songs, pArtist.Length) && TablesInFile(mainMem, mainH) && TablesInFile(subMem, subH)
    ensures
      var people, sub := People(old(pArtist[..])), Read(FileImage(subMem, subH));
      && |subHoles| == |people| == |mainHoles|
      && var indexes := PlacedArtists(sub, people, Unset(|people|), subHoles, less).indexes;
      && HoldsLike(subFile, subLaid, Added(sub, people, Unset(|people|), subHoles, songs, less),
                   RequestListsFit(WorkImage(subMem, subH), songs))
      && HoldsLike(mainFile, mainLaid, Added(Read(FileImage(mainMem, mainH)), people, indexes, mainHoles, songs, less),
                   RequestListsFit(WorkImage(mainMem, mainH), songs))
    ensures mainLaid.versions == mainH.versions && subLaid.versions == subH.versions
  {
    hide Read, Sound, FileImage, TablesInFile, People, Indexes, Ready, Writable, UsableArtistRequest, Sum, Together,
         UsableSongRequest, SongsInTable, TocTable.Apart, TocTable.Held, RoomOf, MadeFor, ArtistsFit, SongsFit, Holds,
         Added, PlacedArtists, Unset, TocTable.Valid, TocTable.Counted, TocTable.Tail, WorkImage, Like, RequestListsFit,
         HoldsLike;
    ghost var people := People(pArtist[..]);
    var mainToc := Prepare(mainMem, mainH, pArtist, songs);
    var subToc := Prepare(subMem, subH, pArtist, songs);
    ReadyFits(subToc, subMem, subH, people, songs);
    ReadyFits(mainToc, mainMem, mainH, people, songs);
    ghost var subCat, mainCat := Read(subToc.img), Read(mainToc.img);
    subHoles := Fill(subToc, pArtist, songs, less);
    ghost var indexes := Indexes(pArtist[..]);
    mainHoles := Fill(mainToc, pArtist, songs, less);
    ghost var subImg, mainImg := subToc.img, mainToc.img;
    subFile, subLaid := Save(subToc, subH, RoomOf(people, songs));
    LikeHolds(subFile, subLaid, subImg, Added(subCat, people, Unset(|people|), subHoles, songs, less),
              RequestListsFit(WorkImage(subMem, subH), songs));
    mainFile, mainLaid := Save(mainToc, mainH, RoomOf(people, songs));
    LikeHolds(mainFile, mainLaid, mainImg, Added(mainCat, people, indexes, mainHoles, songs, less),
              RequestListsFit(WorkImage(mainMem, mainH), songs));
  }

  lemma KeptVersions(h: Header, img: Image)
    ensures TakeVersion(h, h, YouTube) == h && LaidHeader(h, img).versions == h.versions
  {}
}
