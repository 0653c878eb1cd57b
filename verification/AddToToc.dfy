/** insert_artist and insert_song on the working tables, for requests given as strings. */
module AddToToc {
  import opened Bytes
  import opened Records
  import opened Catalogue
  import opened Image
  import opened References
  import opened TocTable
  import opened AddArtist
  import opened AddSong
  import opened PoolRoom
  import opened RunOn

  /** An artist of the request (Person_Info_Update_S). */
  datatype Asked = Asked(person: Artist, insertIndex: U32)

  ghost predicate UsableText(a: Artist)
  {
    NulFree(a.name) && NulFree(a.pinyin) && Short(a.name) && Short(a.pinyin)
  }

  function People(asked: seq<Asked>): (r: seq<Artist>)
    ensures |r| == |asked|
  {
    seq(|asked|, i requires 0 <= i < |asked| => asked[i].person)
  }

  function Indexes(asked: seq<Asked>): (r: seq<U32>)
    ensures |r| == |asked|
  {
    seq(|asked|, i requires 0 <= i < |asked| => asked[i].insertIndex)
  }

  lemma PastReads(was: Image, cell: ArtistRec, name: Str, pinyin: Str)
    requires Sound(was) && Leftover(was, cell)
    ensures
      var after := PutPast(was, cell, name, pinyin);
      Read(after) == Catalogue(Read(was).artists + [ReadArtist(after, cell)], Read(was).songs)
  {
    hide Sound;
    var grown := was.(singerNames := was.singerNames + (name + [0]), singerPys := was.singerPys + (pinyin + [0]));
    GrownRead(was, grown);
    assert Read(grown) == Read(was);
    ReadInsertArtistOnly(grown, cell);
  }

  lemma ReadInsertArtistOnly(img: Image, cell: ArtistRec)
    ensures Read(img.(artists := img.artists + [cell]))
         == Catalogue(Read(img).artists + [ReadArtist(img, cell)], Read(img).songs)
  {
    var after := img.(artists := img.artists + [cell]);
    assert forall x :: ReadArtist(after, x) == ReadArtist(img, x);
    assert forall x :: ReadSong(after, x) == ReadSong(img, x);
    assert Read(after).songs == Read(img).songs;
    assert Read(after).artists == Read(img).artists + [ReadArtist(img, cell)];
  }

  /** The array holds the record that do_insert_artist_info writes: one place too far at the table's end. */
  ghost predicate RecordFits(toc: TocTable, index: nat)
    reads toc
  {
    if index < toc.singerNums then toc.singerNums < toc.pArtistInfo.Length
    else toc.singerNums + 1 < toc.pArtistInfo.Length
  }

  /** do_insert_artist_info. Asked for a position inside the table, it inserts the record at the upper bound from
      there; asked for the table's end, it writes the record one place further, and the table ends with
      what the array held at its end, which reads as hole. */
  method DoInsertArtistInfo(toc: TocTable, a: Artist, index: nat, less: Less) returns (at: nat, ghost hole: Artist)
    requires toc.Valid() && toc.Tail() && UsableText(a) && index <= toc.singerNums && RecordFits(toc, index)
    requires toc.singerNameSize + |a.name| + 1 <= toc.pSingerName.Length
    requires toc.singerPySize + |a.pinyin| + 1 <= toc.pSingerPYName.Length
    modifies toc`img, toc`singerNums, toc`singerNameSize, toc`singerPySize, toc.pArtistInfo, toc.pSingerName
    modifies toc.pSingerPYName
    ensures toc.Valid() && toc.Tail()
    ensures toc.singerNums == old(toc.singerNums) + 1 && SameClips(old(toc.img), toc.img)
    ensures toc.singerNameSize == old(toc.singerNameSize) + |a.name| + 1
    ensures toc.singerPySize == old(toc.singerPySize) + |a.pinyin| + 1
    ensures at == if index < old(toc.singerNums) then FindArtist(old(Read(toc.img)).artists, a.name, index, less)
                  else index + 1
    ensures
      var cat := old(Read(toc.img));
      Read(toc.img) == Catalogue(
        if index < old(toc.singerNums) then Insert(cat.artists, at, Fresh(a)) else cat.artists + [hole], cat.songs)
  {
    hide Sound, TocTable.Held, TocTable.Apart, Read, Insert, FindArtist, Leftover;
    ghost var was, cells := toc.img, toc.pArtistInfo[..];
    ReadSizes(toc.img);
    hole := a;
    if index < toc.singerNums {
      at := toc.FindSingerIndex(a.name, index, less);
      ReadPutArtist(toc.img, Doubled(a.credits), 0, a.name, a.pinyin, at);
      PutArtistSize(toc.img, Doubled(a.credits), 0, a.name, a.pinyin, at);
      toc.StoreArtist(Person(a.credits, 0, 0, 0), a.name, a.pinyin, at);
    } else {
      at := index + 1;
      ghost var cell := toc.pArtistInfo[toc.singerNums];
      PastReads(toc.img, cell, a.name, a.pinyin);
      toc.StoreArtistPast(Person(a.credits, 0, 0, 0), a.name, a.pinyin);
      hole := ReadArtist(toc.img, cell);
      if toc.singerNums < toc.pArtistInfo.Length { SoundLeft(toc.img, toc.pArtistInfo[toc.singerNums]); }
    }
    assert forall k | toc.singerNums <= k < toc.pArtistInfo.Length ::
      toc.pArtistInfo[k] == cells[k] || Leftover(toc.img, toc.pArtistInfo[k]);
    TailFrom(toc, was);
  }

  /** Pools that grow leave what lies behind the table as it is. */
  lemma TailFrom(toc: TocTable, was: Image)
    requires toc.Counted() && was.singerNames <= toc.img.singerNames && was.singerPys <= toc.img.singerPys
    requires forall k | toc.singerNums <= k < toc.pArtistInfo.Length ::
      Leftover(was, toc.pArtistInfo[k]) || Leftover(toc.img, toc.pArtistInfo[k])
    ensures toc.Tail()
  {
    hide Leftover;
    forall k | toc.singerNums <= k < toc.pArtistInfo.Length
      ensures Leftover(toc.img, toc.pArtistInfo[k])
    {
      if Leftover(was, toc.pArtistInfo[k]) { LeftoverGrown(was, toc.img, toc.pArtistInfo[k]); }
    }
  }

  lemma SoundLeft(img: Image, a: ArtistRec)
    requires SoundArtist(img, a)
    ensures Leftover(img, a)
  {}

  lemma PutArtistSize(img: Image, credits: Credits, singerIdx: U32, name: Str, pinyin: Str, at: nat)
    requires at <= |img.artists| && |img.singerNames| < 0x1_0000_0000 && |img.singerPys| < 0x1_0000_0000
    ensures
      var after := PutArtist(img, credits, singerIdx, name, pinyin, at);
      |after.artists| == |img.artists| + 1 && SameClips(img, after)
  {}

  /** The search loop of insert_artist, comparing names with strcmp. */
  method FindName(toc: TocTable, name: Str) returns (j: nat)
    requires toc.Valid()
    ensures j == FirstByName(Read(toc.img).artists, name, 0)
  {
    j := 0;
    while j < toc.singerNums
      invariant j <= toc.singerNums
      invariant forall k | 0 <= k < j :: Read(toc.img).artists[k].name != name
    {
      var record := toc.pArtistInfo[j];
      assert record == toc.img.artists[j] && Read(toc.img).artists[j] == ReadArtist(toc.img, record);
      if CString(toc.pSingerName[..toc.singerNameSize], record.name) == name { return; }
      j := j + 1;
    }
  }

  /** The loop over insertIndex after an insertion. */
  method BumpIndexes(pArtist: array<Asked>, at: nat)
    modifies pArtist
    ensures Indexes(pArtist[..]) == Bump(Indexes(old(pArtist[..])), at)
    ensures People(pArtist[..]) == People(old(pArtist[..]))
  {
    ghost var was := pArtist[..];
    for j := 0 to pArtist.Length
      invariant forall k | 0 <= k < j :: pArtist[k] == was[k].(insertIndex := Moved(was[k].insertIndex, at))
      invariant forall k | j <= k < pArtist.Length :: pArtist[k] == was[k]
    {
      if pArtist[j].insertIndex >= at {
        pArtist[j] := pArtist[j].(insertIndex := Wrap32(pArtist[j].insertIndex + 1));
      }
    }
  }

  method SetIndex(pArtist: array<Asked>, i: nat, at: nat)
    requires i < pArtist.Length
    modifies pArtist
    ensures Indexes(pArtist[..]) == Indexes(old(pArtist[..]))[i := Wrap32(at)]
    ensures People(pArtist[..]) == People(old(pArtist[..]))
  {
    pArtist[i] := pArtist[i].(insertIndex := Wrap32(at));
  }

  /** One round of insert_artist, for artist i of the request. */
  method InsertOneArtist(toc: TocTable, pArtist: array<Asked>, i: nat, lastSort: nat, less: Less)
    returns (cursor: nat, ghost hole: Artist)
    requires toc.Valid() && toc.Tail() && i < pArtist.Length && lastSort <= toc.singerNums
    requires UsableText(pArtist[i].person)
    requires toc.singerNameSize + |pArtist[i].person.name| + 1 <= toc.pSingerName.Length
    requires toc.singerPySize + |pArtist[i].person.pinyin| + 1 <= toc.pSingerPYName.Length
    requires
      var run, a := AddRun(Read(toc.img), lastSort, Indexes(pArtist[..])), pArtist[i].person;
      HasName(run.cat.artists, a.name) || RecordFits(toc, AskedIndex(run, a))
    modifies toc`img, toc`singerNums, toc`singerNameSize, toc`singerPySize, toc.pArtistInfo, toc.pSongInfo
    modifies toc.pSingerName, toc.pSingerPYName
    modifies pArtist
    ensures toc.Valid() && toc.Tail()
    ensures toc.singerNums <= old(toc.singerNums) + 1 && SameClips(old(toc.img), toc.img)
    ensures toc.singerNameSize <= old(toc.singerNameSize) + |old(pArtist[i]).person.name| + 1
    ensures toc.singerPySize <= old(toc.singerPySize) + |old(pArtist[i]).person.pinyin| + 1
    ensures People(pArtist[..]) == People(old(pArtist[..])) && cursor <= toc.singerNums
    ensures AddRun(Read(toc.img), cursor, Indexes(pArtist[..]))
         == AddOne(AddRun(old(Read(toc.img)), lastSort, Indexes(old(pArtist[..]))), i, old(pArtist[i]).person,
                   hole, less)
  {
    hide Sound, TocTable.Held, TocTable.Apart, Read, Indexes, People, Bump, HasName, ShiftSongs, Promote, FindArtist,
         Insert, Leftover;
    var a, end := pArtist[i].person, toc.singerNums;
    cursor, hole := lastSort, a;
    ReadSizes(toc.img);
    NamedIff(Read(toc.img).artists, a.name);
    var j := FindName(toc, a.name);
    if j < toc.singerNums {
      ReadSetCredits(toc.img, j, Promote(toc.img.artists[j].credits, a.credits));
      ReadCredits(toc.img, j);
      ghost var was := toc.img;
      toc.AddRoles(j, a.credits);
      TailFrom(toc, was);
      SetIndex(pArtist, i, j);
    } else {
      var at;
      at, hole := AddArtistRecord(toc, a, if a.credits.language < 3 then lastSort else end, less);
      if a.credits.language < 3 {
        cursor := at;
      }
      BumpIndexes(pArtist, at);
      SetIndex(pArtist, i, at);
    }
  }

  /** do_insert_artist_info and the slot loops after it. */
  method AddArtistRecord(toc: TocTable, a: Artist, index: nat, less: Less) returns (at: nat, ghost hole: Artist)
    requires toc.Valid() && toc.Tail() && UsableText(a) && index <= toc.singerNums && RecordFits(toc, index)
    requires toc.singerNameSize + |a.name| + 1 <= toc.pSingerName.Length
    requires toc.singerPySize + |a.pinyin| + 1 <= toc.pSingerPYName.Length
    modifies toc`img, toc`singerNums, toc`singerNameSize, toc`singerPySize
    modifies toc.pArtistInfo, toc.pSongInfo, toc.pSingerName, toc.pSingerPYName
    ensures toc.Valid() && toc.Tail()
    ensures toc.singerNums == old(toc.singerNums) + 1 && SameClips(old(toc.img), toc.img)
    ensures toc.singerNameSize == old(toc.singerNameSize) + |a.name| + 1
    ensures toc.singerPySize == old(toc.singerPySize) + |a.pinyin| + 1
    ensures at == if index < old(toc.singerNums) then FindArtist(old(Read(toc.img)).artists, a.name, index, less)
                  else index + 1
    ensures
      var cat := old(Read(toc.img));
      Read(toc.img) == Catalogue(
        if index < old(toc.singerNums) then Insert(cat.artists, at, Fresh(a)) else cat.artists + [hole],
        ShiftSongs(cat.songs, at))
  {
    hide Sound, TocTable.Held, TocTable.Apart, Read, FindArtist, Insert, Leftover;
    at, hole := DoInsertArtistInfo(toc, a, index, less);
    ghost var was := toc.img;
    ReadShiftSongs(toc.img, at);
    toc.ShiftAllSongs(at);
    TailFrom(toc, was);
  }

  lemma ReadCredits(img: Image, j: nat)
    requires j < |img.artists|
    ensures Read(img).artists[j].credits == img.artists[j].credits
  {}

  ghost predicate UsableArtistRequest(people: seq<Artist>) { forall i | 0 <= i < |people| :: UsableText(people[i]) }

  /** The arrays prepare_insert_song sizes for the request's artists. */
  ghost predicate ArtistsFit(toc: TocTable, people: seq<Artist>)
    reads toc
  {
    && toc.singerNums + |people| <= toc.pArtistInfo.Length && toc.singerNums + |people| < NO_ARTIST
    && toc.singerNameSize + Sum(NameSizes(people), |people|) <= toc.pSingerName.Length
    && toc.singerPySize + Sum(PinyinSizes(people), |people|) <= toc.pSingerPYName.Length
  }

  lemma RequestAt(pArtist: seq<Asked>, people: seq<Artist>, i: nat)
    requires People(pArtist) == people && i < |people| && UsableArtistRequest(people)
    ensures pArtist[i].person == people[i] && UsableText(people[i])
    ensures Sum(NameSizes(people), i + 1) == Sum(NameSizes(people), i) + |people[i].name| + 1
      <= Sum(NameSizes(people), |people|)
    ensures Sum(PinyinSizes(people), i + 1) == Sum(PinyinSizes(people), i) + |people[i].pinyin| + 1
      <= Sum(PinyinSizes(people), |people|)
  {
    SumStep(NameSizes(people), i);
    SumStep(PinyinSizes(people), i);
  }

  lemma ValidCounts(toc: TocTable)
    requires toc.Valid()
    ensures toc.singerNums == |toc.img.artists| && toc.songNums == |toc.img.songs|
  {}

  /** insert_artist, as long as the array holds what it writes: it runs as specified, and every artist of the
      request knows its record exactly when no new one has to go to the end of the table. */
  method InsertArtist(toc: TocTable, pArtist: array<Asked>, less: Less) returns (ghost holes: seq<Artist>)
    requires toc.Valid() && toc.Tail() && UsableArtistRequest(People(pArtist[..]))
    requires ArtistsFit(toc, People(pArtist[..]))
    requires pArtist.Length > 0 ==> Spared(Read(toc.img).artists, People(pArtist[..]))
    modifies toc`img, toc`singerNums, toc`singerNameSize, toc`singerPySize, toc.pArtistInfo, toc.pSongInfo
    modifies toc.pSingerName, toc.pSingerPYName
    modifies pArtist
    ensures toc.Valid() && toc.Tail()
    ensures People(pArtist[..]) == People(old(pArtist[..])) && SameClips(old(toc.img), toc.img)
    ensures |holes| == pArtist.Length
    ensures
      var cat, people := old(Read(toc.img)), People(old(pArtist[..]));
      var run := AddArtists(cat, people, Indexes(old(pArtist[..])), |people|, holes, less);
      && Read(toc.img) == run.cat && Indexes(pArtist[..]) == run.indexes
      && (AllDesignate(run, people, |people|) <==> Insertable(cat.artists, people, |people|))
  {
    hide Read, TocTable.Valid, People, Indexes, AddOne, UsableArtistRequest, Insertable, HasName, AskedIndex,
         UsableText,
         NameSizes, PinyinSizes, Sum, TocTable.Tail, Spared;
    ghost var cat, people, indexes := Read(toc.img), People(pArtist[..]), Indexes(pArtist[..]);
    ghost var run := AddRun(cat, 0, indexes);
    holes := people;
    ReadSizes(toc.img);
    ValidCounts(toc);
    NoSum(NameSizes(people));
    NoSum(PinyinSizes(people));
    ghost var count, nameSize, pySize := toc.singerNums, toc.singerNameSize, toc.singerPySize;
    var lastSort: nat := 0;
    for i := 0 to pArtist.Length
      invariant toc.Valid() && toc.Tail() && People(pArtist[..]) == people && toc.singerNums <= count + i
      invariant SameClips(old(toc.img), toc.img) && |holes| == |people|
      invariant toc.singerNameSize <= nameSize + Sum(NameSizes(people), i)
      invariant toc.singerPySize <= pySize + Sum(PinyinSizes(people), i)
      invariant lastSort == run.cursor <= toc.singerNums && Read(toc.img) == run.cat
      invariant Indexes(pArtist[..]) == run.indexes
      invariant run == AddArtists(cat, people, indexes, i, holes, less)
    {
      RequestAt(pArtist[..], people, i);
      RoundFits(cat, people, indexes, i, holes, less);
      ReadSizes(toc.img);
      ValidCounts(toc);
      AskedInside(run, people[i]);
      ghost var hole, before := people[i], holes;
      lastSort, hole := InsertOneArtist(toc, pArtist, i, lastSort, less);
      holes := holes[i := hole];
      SameHoles(cat, people, indexes, i, before, holes, less);
      run := AddOne(run, i, people[i], hole, less);
    }
    IndexesRightIff(cat, people, indexes, holes, less);
  }

  lemma AskedInside(run: AddRun, a: Artist)
    requires run.cursor <= |run.cat.artists|
    ensures AskedIndex(run, a) <= |run.cat.artists|
  {}

  // ---- songs

  /** A song of the request: its strings and the clip list its pSongClips points at. */
  ghost predicate UsableEntry(u: Entry)
  {
    && NulFree(u.name) && NulFree(u.pinyin) && Short(u.name) && Short(u.pinyin) && u.info.mediaType != VIDEO
    && u.clips.Some? && IsClipList(u.clips.value) && |u.clips.value| < 0x1_0000
  }

  ghost predicate UsableSongRequest(songs: seq<Entry>) { forall i | 0 <= i < |songs| :: UsableEntry(songs[i]) }

  /** The search for the song's code in do_insert_song_info. */
  method FindCode(toc: TocTable, code6: U32) returns (j: nat)
    requires toc.Valid()
    ensures j == FirstByCode6(Read(toc.img).songs, code6, 0)
    ensures j <= toc.songNums && (j < toc.songNums <==> HasCode6(Read(toc.img).songs, code6))
  {
    j := 0;
    while j < toc.songNums
      invariant j <= toc.songNums
      invariant forall k | 0 <= k < j :: Read(toc.img).songs[k].info.code6 != code6
    {
      assert Read(toc.img).songs[j].info == toc.pSongInfo[j].info;
      if toc.pSongInfo[j].info.code6 == code6 { return; }
      j := j + 1;
    }
  }

  /** Room for one song more. */
  ghost predicate SongFits(toc: TocTable, u: Entry)
    reads toc
  {
    && toc.songNums < toc.pSongInfo.Length
    && toc.songNameSize + |u.name| + 1 <= toc.pSongName.Length
    && toc.songPySize + |u.pinyin| + 1 <= toc.pSongPyName.Length
    && toc.clipSize + ClipBytes(u) <= toc.pVideoJPGName.Length
  }

  /** do_insert_song_info: a song stored is read back, unless a list that counts 128 clips or more runs on
      from one stored before it. */
  method DoInsertSongInfo(toc: TocTable, u: Entry, index: nat, less: Less) returns (at: nat, existed: bool)
    requires toc.Valid() && UsableEntry(u) && index <= toc.songNums && SongFits(toc, u)
    modifies toc`img, toc`songNums, toc`songNameSize, toc`songPySize, toc`clipSize
    modifies toc.pSongInfo, toc.pSongName, toc.pSongPyName, toc.pVideoJPGName
    ensures toc.Valid() && existed == Existed(old(Read(toc.img)).songs, u, index)
    ensures at == PlaceNew(old(Read(toc.img)).songs, u, index, less)
    ensures existed ==> toc.img == old(toc.img)
    ensures !existed ==>
      toc.img == PutSong(old(toc.img), u.info, u.singers, u.authors, u.name, u.pinyin, u.clips, at)
    ensures !existed ==>
      (Read(toc.img) == Catalogue(old(Read(toc.img)).artists, Insert(old(Read(toc.img)).songs, at, u))
       <==> old(NotRunOn(toc.img, u.clips.value)))
    ensures toc.songNums == old(toc.songNums) + if existed then 0 else 1
    ensures toc.songNameSize == old(toc.songNameSize) + if existed then 0 else |u.name| + 1
    ensures toc.songPySize == old(toc.songPySize) + if existed then 0 else |u.pinyin| + 1
    ensures toc.clipSize == old(toc.clipSize) + if existed then 0 else ClipBytes(u)
  {
    hide Sound, TocTable.Held, TocTable.Apart, Read, HasCode6, IsClipList, NotRunOn;
    at, existed := index, false;
    ReadSizes(toc.img);
    if index < toc.songNums {
      at := FindCode(toc, u.info.code6);
      if at < toc.songNums { return at, true; }
      at := toc.FindSongIndex(u.name, index + 1, less);
    }
    ReadPutSong(toc.img, u.info, u.singers, u.authors, u.name, u.pinyin, u.clips, at);
    toc.StoreSong(Song(u.info, u.singers, u.authors, 0, 0, 0), u.name, u.pinyin, u.clips, at);
  }

  /** One of the slot loops of insert_song. */
  method PatchedSlots(
    slots: Slots, wanted: Slots, ghost roles: seq<bool>, pArtist: array<Asked>, singer: bool) returns (t: Slots)
    requires |roles| == pArtist.Length && InTable(wanted, |roles|)
    requires roles == if singer then Singers(People(pArtist[..])) else Authors(People(pArtist[..]))
    ensures t == Patch(slots, wanted, roles, Indexes(pArtist[..]))
  {
    t := slots;
    ghost var p := Patch(slots, wanted, roles, Indexes(pArtist[..]));
    for k := 0 to MAX_ARTIST_PER_SONG
      invariant k <= Live(wanted)
      invariant forall l | 0 <= l < k :: t[l] == p[l]
      invariant forall l | k <= l < MAX_ARTIST_PER_SONG :: t[l] == slots[l]
    {
      if wanted[k] == NO_ARTIST {
        assert forall l | k <= l < MAX_ARTIST_PER_SONG :: t[l] == p[l];
        return;
      }
      var artist := pArtist[wanted[k]];
      assert roles[wanted[k]] == if singer then artist.person.credits.isSinger else artist.person.credits.isAuthor;
      if (if singer then artist.person.credits.isSinger else artist.person.credits.isAuthor) {
        t := t[k := Wrap16(artist.insertIndex)];
      }
    }
  }

  /** The slot loops of insert_song for the entry at `at`. */
  method PatchEntry(toc: TocTable, u: Entry, at: nat, pArtist: array<Asked>)
    requires toc.Valid() && at < toc.songNums
    requires InTable(u.singers, pArtist.Length) && InTable(u.authors, pArtist.Length)
    modifies toc`img, toc.pSongInfo
    ensures toc.Valid()
    ensures
      var s, people, indexes := old(toc.img).songs[at], People(pArtist[..]), Indexes(pArtist[..]);
      toc.img == old(toc.img).(songs := old(toc.img).songs[at := s.(
        singers := Patch(s.singers, u.singers, Singers(people), indexes),
        authors := Patch(s.authors, u.authors, Authors(people), indexes))])
  {
    hide Sound, TocTable.Held, TocTable.Apart, Patch, Live, InTable, Read;
    ghost var people := People(pArtist[..]);
    RecordAt(toc, at);
    var s := toc.pSongInfo[at];
    var singers := PatchedSlots(s.singers, u.singers, Singers(people), pArtist, true);
    var authors := PatchedSlots(s.authors, u.authors, Authors(people), pArtist, false);
    toc.SetSlots(at, singers, authors);
  }

  lemma RecordAt(toc: TocTable, at: nat)
    requires toc.Valid() && at < toc.songNums
    ensures at < |toc.img.songs| && toc.pSongInfo[at] == toc.img.songs[at]
  {}

  lemma LikeSlots(img: Image, songs: seq<Entry>, clear: bool, at: nat)
    requires Like(img, songs, clear) && at < |img.songs|
    ensures |songs| == |img.songs|
    ensures songs[at].singers == img.songs[at].singers && songs[at].authors == img.songs[at].authors
  {
    BareAt(Read(img).songs, songs, at);
  }

  lemma LikePlaceNew(img: Image, songs: seq<Entry>, clear: bool, u: Entry, index: nat, less: Less)
    requires Like(img, songs, clear) && index <= |img.songs|
    ensures |songs| == |img.songs| == |Read(img).songs|
    ensures Existed(songs, u, index) <==> Existed(Read(img).songs, u, index)
    ensures PlaceNew(songs, u, index, less) == PlaceNew(Read(img).songs, u, index, less)
  {
    var a := Read(img).songs;
    BareSame(a, songs);
    if index < |songs| {
      BareHas(a, songs, u.info.code6);
      BareFinds(a, songs, u.name, index + 1, less);
      assert FirstByCode6(a, u.info.code6, 0) == FirstByCode6(songs, u.info.code6, 0);
    }
  }

  /** What PutOne makes of the table, told in its two halves. */
  lemma PutOneSongs(run: PutRun, i: nat, u: Entry, people: seq<Artist>, indexes: seq<U32>, less: Less)
    requires run.cursor <= |run.songs|
    requires |people| == |indexes| && InTable(u.singers, |people|) && InTable(u.authors, |people|)
    ensures
      var index := if u.info.language < 3 then run.cursor else |run.songs|;
      var at, existed := PlaceNew(run.songs, u, index, less), Existed(run.songs, u, index);
      var put := if existed then run.songs else Insert(run.songs, at, u);
      var next := PutOne(run, i, u, people, indexes, less);
      && at < |put| && next.songs == put[at := put[at].(
           singers := Patch(put[at].singers, u.singers, Singers(people), indexes),
           authors := Patch(put[at].authors, u.authors, Authors(people), indexes))]
      && next.cursor == (if u.info.language < 3 then at else run.cursor) && next.places == run.places[i := at]
      && next.added == if existed then run.added else run.added + {i}
  {
    hide Patch, InTable;
  }

  /** The record's half: found, or stored. */
  lemma LikeStored(img: Image, songs: seq<Entry>, clear: bool, u: Entry, at: nat, existed: bool, after: Image)
    requires Sound(img) && Like(img, songs, clear) && at <= |img.songs| && UsableEntry(u)
    requires |img.songNames| < 0x1_0000_0000 && |img.songPys| < 0x1_0000_0000 && |img.clips| < NO_CLIPS
    requires existed ==> after == img && at < |img.songs|
    requires !existed ==> after == PutSong(img, u.info, u.singers, u.authors, u.name, u.pinyin, u.clips, at)
    ensures |songs| == |img.songs| && Sound(after) && Read(after).artists == Read(img).artists
    ensures Like(after, if existed then songs else Insert(songs, at, u),
                 clear && (existed || !Long(u) || Closed(img)))
    ensures Closed(after) <==> existed && Closed(img)
  {
    hide Sound, Read, Insert, PutSong, Closed, High;
    if existed {
      ReadSizes(img);
      BareSame(Read(img).songs, songs);
    } else {
      LikePutSong(img, songs, clear, u, at);
      RunOnIff(img, u);
    }
  }

  /** Both halves: from the table `was` through `mid`, with the record found or stored at `at`, to `after`,
      with its slots rewritten. */
  lemma RoundLike(
    was: Image, mid: Image, after: Image, run: PutRun, clear: bool, i: nat, u: Entry, people: seq<Artist>,
    indexes: seq<U32>, less: Less, at: nat)
    requires Sound(was) && Like(was, run.songs, clear) && run.cursor <= |run.songs| && UsableEntry(u)
    requires |people| == |indexes| && InTable(u.singers, |people|) && InTable(u.authors, |people|) && i !in run.added
    requires |was.songNames| < 0x1_0000_0000 && |was.songPys| < 0x1_0000_0000 && |was.clips| < NO_CLIPS
    requires at == PlaceNew(run.songs, u, if u.info.language < 3 then run.cursor else |run.songs|, less) <= |was.songs|
    requires
      var existed := Existed(run.songs, u, if u.info.language < 3 then run.cursor else |run.songs|);
      if existed then mid == was
      else mid == PutSong(was, u.info, u.singers, u.authors, u.name, u.pinyin, u.clips, at)
    requires at < |mid.songs|
    requires
      var s := mid.songs[at];
      after == mid.(songs := mid.songs[at := s.(
        singers := Patch(s.singers, u.singers, Singers(people), indexes),
        authors := Patch(s.authors, u.authors, Authors(people), indexes))])
    ensures
      var next := PutOne(run, i, u, people, indexes, less);
      && Read(after).artists == Read(was).artists
      && Like(after, next.songs, clear && (i !in next.added || !Long(u) || Closed(was)))
      && (Closed(after) <==> i !in next.added && Closed(was))
  {
    hide Sound, Read, Insert, InTable, Patch, Existed, PlaceNew, PutOne, Like, Closed, PutSong, UsableEntry, Long;
    var index := if u.info.language < 3 then run.cursor else |run.songs|;
    var existed := Existed(run.songs, u, index);
    PutOneSongs(run, i, u, people, indexes, less);
    LikeStored(was, run.songs, clear, u, at, existed, mid);
    var put := if existed then run.songs else Insert(run.songs, at, u);
    var still := clear && (existed || !Long(u) || Closed(was));
    LikeSlots(mid, put, still, at);
    LikeSetSlots(mid, put, still, at, Patch(put[at].singers, u.singers, Singers(people), indexes),
                 Patch(put[at].authors, u.authors, Authors(people), indexes));
  }

  /** One round of insert_song, for song i of the request. The table reads like the songs of run, clear or
      not; a song stored keeps it clear unless a list runs on into its list. */
  method InsertOneSong(
    toc: TocTable, u: Entry, i: nat, pArtist: array<Asked>, lastSort: nat, ghost run: PutRun, ghost clear: bool,
    less: Less)
    returns (cursor: nat, ghost next: PutRun)
    requires toc.Valid() && UsableEntry(u) && lastSort <= toc.songNums && SongFits(toc, u)
    requires InTable(u.singers, pArtist.Length) && InTable(u.authors, pArtist.Length)
    requires i < toc.pMapIndex.Length && toc.MapHolds(run.places)
    requires Like(toc.img, run.songs, clear) && run.cursor == lastSort && i !in run.added
    modifies toc`img, toc`songNums, toc`songNameSize, toc`songPySize, toc`clipSize
    modifies toc.pSongInfo, toc.pSongName, toc.pSongPyName, toc.pVideoJPGName, toc.pMapIndex
    ensures toc.Valid() && toc.MapHolds(next.places) && cursor == next.cursor <= toc.songNums
    ensures |run.songs| == old(toc.songNums)
    ensures next == PutOne(run, i, u, People(pArtist[..]), Indexes(pArtist[..]), less)
    ensures Read(toc.img).artists == old(Read(toc.img)).artists
    ensures Like(toc.img, next.songs, clear && (i !in next.added || !Long(u) || old(Closed(toc.img))))
    ensures Closed(toc.img) <==> i !in next.added && old(Closed(toc.img))
    ensures toc.songNums == old(toc.songNums) + if i in next.added then 1 else 0
    ensures toc.songNameSize == old(toc.songNameSize) + if i in next.added then |u.name| + 1 else 0
    ensures toc.songPySize == old(toc.songPySize) + if i in next.added then |u.pinyin| + 1 else 0
    ensures toc.clipSize == old(toc.clipSize) + if i in next.added then ClipBytes(u) else 0
  {
    hide Sound, TocTable.Held, TocTable.Apart, Read, Insert, InTable, People, Indexes, Patch, Existed, PlaceNew, PutOne,
         Like, Closed, PutSong, UsableEntry, Long, NotRunOn;
    ghost var was, people, indexes := toc.img, People(pArtist[..]), Indexes(pArtist[..]);
    ReadSizes(toc.img);
    var index := if u.info.language < 3 then lastSort else toc.songNums;
    LikePlaceNew(toc.img, run.songs, clear, u, index, less);
    next := PutOne(run, i, u, people, indexes, less);
    PutOneSongs(run, i, u, people, indexes, less);
    var at, existed := DoInsertSongInfo(toc, u, index, less);
    ghost var mid := toc.img;
    cursor := if u.info.language < 3 then at else lastSort;
    PatchEntry(toc, u, at, pArtist);
    RoundLike(was, mid, toc.img, run, clear, i, u, people, indexes, less, at);
    toc.RecordPlace(i, at, run.places);
  }

  /** Of the request's songs that are stored, in order, only the first has a long clip list, if any, and that
      only if the table it comes to is closed. */
  ghost predicate AddedFit(closed: bool, songs: seq<Entry>, added: set<nat>, n: nat)
    requires n <= |songs|
  {
    forall i | 0 <= i < n && i in added && Long(songs[i]) :: closed && forall j: nat | j < i :: j !in added
  }

  lemma AddedFitNext(closed: bool, songs: seq<Entry>, added: set<nat>, n: nat, more: bool)
    requires n < |songs| && forall i | i in added :: i < n
    ensures
      AddedFit(closed, songs, if more then added + {n} else added, n + 1)
      <==> AddedFit(closed, songs, added, n) && (!more || !Long(songs[n]) || (added == {} && closed))
  {
    hide Long;
    var after := if more then added + {n} else added;
    assert forall i: nat | i < n :: i in after <==> i in added;
    assert added == {} <==> forall j: nat | j < n :: j !in added;
  }

  /** The arrays prepare_insert_song sizes for the request's songs. */
  ghost predicate SongsFit(toc: TocTable, songs: seq<Entry>)
    reads toc
  {
    && toc.songNums + |songs| <= toc.pSongInfo.Length && |songs| <= toc.pMapIndex.Length
    && toc.songNameSize + Sum(SongNameSizes(songs), |songs|) <= toc.pSongName.Length
    && toc.songPySize + Sum(SongPinyinSizes(songs), |songs|) <= toc.pSongPyName.Length
    && toc.clipSize + Sum(SongClipSizes(songs), |songs|) <= toc.pVideoJPGName.Length
  }

  lemma SizesStep(sizes: seq<nat>, stored: set<nat>, i: nat)
    requires i < |sizes| && i !in stored
    ensures SumOf(sizes, stored, i) + sizes[i] <= Sum(sizes, |sizes|)
    ensures SumOf(sizes, stored, i + 1) == SumOf(sizes, stored, i)
    ensures SumOf(sizes, stored + {i}, i + 1) == SumOf(sizes, stored, i) + sizes[i]
  {
    PartialSumBound(sizes, stored, i);
    SumStep(sizes, i);
    SumOfStep(sizes, stored, i, true);
    SumOfStep(sizes, stored, i, false);
  }

  lemma SongAt(songs: seq<Entry>, i: nat, n: nat)
    requires i < |songs| && UsableSongRequest(songs) && SongsInTable(songs, n)
    ensures UsableEntry(songs[i]) && InTable(songs[i].singers, n) && InTable(songs[i].authors, n)
    ensures SongNameSizes(songs)[i] == |songs[i].name| + 1 && SongPinyinSizes(songs)[i] == |songs[i].pinyin| + 1
    ensures SongClipSizes(songs)[i] == ClipBytes(songs[i])
  {}

  /** insert_song: the table reads as the run says in everything but clip lists, and in those exactly when the
      lists stored run on from nothing. */
  method InsertSong(toc: TocTable, songs: seq<Entry>, pArtist: array<Asked>, less: Less) returns (ghost run: PutRun)
    requires toc.Valid() && UsableSongRequest(songs) && SongsInTable(songs, pArtist.Length) && SongsFit(toc, songs)
    modifies toc`img, toc`songNums, toc`songNameSize, toc`songPySize, toc`clipSize
    modifies toc.pSongInfo, toc.pSongName, toc.pSongPyName, toc.pVideoJPGName, toc.pMapIndex
    ensures toc.Valid() && toc.MapHolds(run.places) && Read(toc.img).artists == old(Read(toc.img)).artists
    ensures run == PutSongs(old(Read(toc.img)).songs, songs, People(pArtist[..]), Indexes(pArtist[..]), |songs|, less)
    ensures Like(toc.img, run.songs, AddedFit(old(Closed(toc.img)), songs, run.added, |songs|))
    ensures toc.songNums <= old(toc.songNums) + |songs|
    ensures toc.songNameSize == old(toc.songNameSize) + SumOf(SongNameSizes(songs), run.added, |songs|)
    ensures toc.songPySize == old(toc.songPySize) + SumOf(SongPinyinSizes(songs), run.added, |songs|)
    ensures toc.clipSize == old(toc.clipSize) + SumOf(SongClipSizes(songs), run.added, |songs|)
  {
    hide Read, TocTable.Valid, TocTable.MapHolds, People, Indexes, PutOne, UsableEntry, UsableSongRequest, InTable,
         SongsInTable, SongNameSizes, SongPinyinSizes, SongClipSizes, Sum, SumOf, ClipBytes, Like, Closed, AddedFit,
         Long;
    ghost var cat, people, indexes := Read(toc.img), People(pArtist[..]), Indexes(pArtist[..]);
    ghost var count, nameSize, pySize, clipSize := toc.songNums, toc.songNameSize, toc.songPySize, toc.clipSize;
    ghost var closed, clear := Closed(toc.img), true;
    run := PutRun(cat.songs, 0, map[], {});
    LikeItself(toc.img);
    NothingAdded(closed, songs);
    NoSumOf(SongNameSizes(songs));
    NoSumOf(SongPinyinSizes(songs));
    NoSumOf(SongClipSizes(songs));
    NoPlaces(toc);
    var lastSort: nat := 0;
    for i := 0 to |songs|
      invariant toc.Valid() && toc.MapHolds(run.places) && toc.songNums <= count + i
      invariant lastSort == run.cursor <= toc.songNums && Read(toc.img).artists == cat.artists
      invariant run == PutSongs(cat.songs, songs, people, indexes, i, less)
      invariant Like(toc.img, run.songs, clear) && (clear <==> AddedFit(closed, songs, run.added, i))
      invariant Closed(toc.img) <==> run.added == {} && closed
      invariant toc.songNameSize == nameSize + SumOf(SongNameSizes(songs), run.added, i)
      invariant toc.songPySize == pySize + SumOf(SongPinyinSizes(songs), run.added, i)
      invariant toc.clipSize == clipSize + SumOf(SongClipSizes(songs), run.added, i)
    {
      SongAt(songs, i, pArtist.Length);
      AddedBelow(cat.songs, songs, people, indexes, i, less);
      SizesStep(SongNameSizes(songs), run.added, i);
      SizesStep(SongPinyinSizes(songs), run.added, i);
      SizesStep(SongClipSizes(songs), run.added, i);
      PutOneAdds(run, i, songs[i], people, indexes, less);
      ghost var before := run;
      lastSort, run := InsertOneSong(toc, songs[i], i, pArtist, lastSort, run, clear, less);
      AddedFitNext(closed, songs, before.added, i, i in run.added);
      clear := clear && (i !in run.added || !Long(songs[i]) || (before.added == {} && closed));
    }
  }

  lemma NothingAdded(closed: bool, songs: seq<Entry>)
    ensures AddedFit(closed, songs, {}, 0)
  {}

  lemma NoSumOf(sizes: seq<nat>)
    ensures SumOf(sizes, {}, 0) == 0
  {}

  lemma NoPlaces(toc: TocTable)
    ensures toc.MapHolds(map[])
  {}
}
