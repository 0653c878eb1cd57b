/** The tables as they lie in memory: records holding offsets into append-only string pools.
    Read turns them into a catalogue; every string, found by following its offset. */
module Image {
  import opened Bytes
  import opened Records
  import opened Catalogue

  type ArtistRec = Person<U32>
  type SongRec = Song<U32, U32>

  datatype Image = Image(
    artists: seq<ArtistRec>, songs: seq<SongRec>,
    singerNames: Str, songNames: Str, songPys: Str, singerPys: Str, mkvs: Str, clips: Str)

  function ReadArtist(img: Image, a: ArtistRec): Artist
  {
    Person(a.credits, CString(img.singerNames, a.name), CString(img.singerPys, a.pinyin), a.singerIdx)
  }

  function ReadClips(pool: Str, off: U32): (r: Option<Str>)
    ensures r.None? <==> off == 0xFFFF_FFFF
  {
    if off == NO_CLIPS then None else Some(ClipList(pool, off))
  }

  function ReadSong(img: Image, s: SongRec): Entry
  {
    Song(s.info, s.singers, s.authors,
         CString(img.songNames, s.name), CString(img.songPys, s.pinyin), ReadClips(img.clips, s.clips))
  }

  function Read(img: Image): Catalogue
  {
    Catalogue(
      seq(|img.artists|, i requires 0 <= i < |img.artists| => ReadArtist(img, img.artists[i])),
      seq(|img.songs|, i requires 0 <= i < |img.songs| => ReadSong(img, img.songs[i])))
  }

  lemma ReadSizes(img: Image)
    ensures |Read(img).artists| == |img.artists| && |Read(img).songs| == |img.songs|
  {}

  ghost predicate SoundArtist(img: Image, a: ArtistRec)
  {
    Terminated(img.singerNames, a.name) && Terminated(img.singerPys, a.pinyin)
  }

  ghost predicate SoundSong(img: Image, s: SongRec)
  {
    && Terminated(img.songNames, s.name) && Terminated(img.songPys, s.pinyin)
    && (s.clips != NO_CLIPS ==> ClipReadable(img.clips, s.clips))
    && s.info.mediaType != VIDEO
  }

  /** Every offset leads to a whole string or clip list. */
  ghost predicate Sound(img: Image)
  {
    && (forall i | 0 <= i < |img.artists| :: SoundArtist(img, img.artists[i]))
    && (forall i | 0 <= i < |img.songs| :: SoundSong(img, img.songs[i]))
  }

  // ---- the insertions' effect

  /** A new artist record at position at, its strings at the ends of their pools. */
  function PutArtist(img: Image, credits: Credits, singerIdx: U32, name: Str, pinyin: Str, at: nat): Image
    requires at <= |img.artists| && |img.singerNames| < 0x1_0000_0000 && |img.singerPys| < 0x1_0000_0000
  {
    img.(artists := Insert(img.artists, at, Person(credits, |img.singerNames|, |img.singerPys|, singerIdx)),
         singerNames := img.singerNames + (name + [0]),
         singerPys := img.singerPys + (pinyin + [0]))
  }

  /** A song without a clip list is given the offset of the first one in the pool. */
  function PutSong(
    img: Image, info: SongInfo, singers: Slots, authors: Slots, name: Str, pinyin: Str, clips: Option<Str>,
    at: nat): Image
    requires at <= |img.songs|
    requires |img.songNames| < 0x1_0000_0000 && |img.songPys| < 0x1_0000_0000 && |img.clips| < NO_CLIPS
  {
    var record := Song(
      info, singers, authors, |img.songNames|, |img.songPys|, if clips.Some? then |img.clips| else 0);
    img.(songs := Insert(img.songs, at, record),
         songNames := img.songNames + (name + [0]),
         songPys := img.songPys + (pinyin + [0]),
         clips := img.clips + ClipsAdded(clips))
  }

  function ClipsAdded(clips: Option<Str>): Str { if clips.Some? then clips.value else [] }

  /** The list such a song reads as having. */
  function ClipsStored(img: Image, clips: Option<Str>): Str
  {
    if clips.Some? then clips.value else ClipList(img.clips, 0)
  }

  /** `after` has the same records and pools that only grew. */
  ghost predicate Grown(img: Image, after: Image)
  {
    && after.artists == img.artists && after.songs == img.songs
    && img.singerNames <= after.singerNames && img.singerPys <= after.singerPys
    && img.songNames <= after.songNames && img.songPys <= after.songPys && img.clips <= after.clips
  }

  /** The song's clip list is ended by a byte of the pool: it does not just run into the pool's end. */
  predicate EndedList(img: Image, s: SongRec)
  {
    s.clips != NO_CLIPS ==> s.clips + |ClipList(img.clips, s.clips)| < |img.clips|
  }

  ghost predicate Closed(img: Image) { forall i | 0 <= i < |img.songs| :: EndedList(img, img.songs[i]) }

  /** What more clip bytes do not run on from. */
  ghost predicate NotRunOn(img: Image, more: Str) { more == [] || !High(more[0]) || Closed(img) }

  lemma GrownString(pool: Str, after: Str, off: nat)
    requires pool <= after && Terminated(pool, off)
    ensures CString(after, off) == CString(pool, off) && Terminated(after, off)
  {
    assert after == pool + after[|pool|..];
    CStringGrow(pool, after[|pool|..], off);
  }

  lemma GrownSong(img: Image, after: Image, s: SongRec)
    requires Grown(img, after) && SoundSong(img, s)
    ensures SoundSong(after, s)
    ensures
      var more := after.clips[|img.clips|..];
      ReadSong(after, s) == ReadSong(img, s) <==> EndedList(img, s) || more == [] || !High(more[0])
  {
    hide ClipList, ClipReadable, High;
    GrownString(img.songNames, after.songNames, s.name);
    GrownString(img.songPys, after.songPys, s.pinyin);
    if s.clips != NO_CLIPS {
      assert after.clips == img.clips + after.clips[|img.clips|..];
      ClipListGrow(img.clips, after.clips[|img.clips|..], s.clips);
    }
  }

  lemma GrownArtist(img: Image, after: Image, a: ArtistRec)
    requires Grown(img, after) && SoundArtist(img, a)
    ensures ReadArtist(after, a) == ReadArtist(img, a) && SoundArtist(after, a)
  {
    GrownString(img.singerNames, after.singerNames, a.name);
    GrownString(img.singerPys, after.singerPys, a.pinyin);
  }

  lemma GrownSound(img: Image, after: Image)
    requires Grown(img, after) && Sound(img)
    ensures Sound(after) && Read(after).artists == Read(img).artists
  {
    forall i | 0 <= i < |img.artists|
      ensures ReadArtist(after, after.artists[i]) == ReadArtist(img, img.artists[i])
      ensures SoundArtist(after, after.artists[i])
    {
      assert SoundArtist(img, img.artists[i]);
      GrownArtist(img, after, img.artists[i]);
    }
    forall i | 0 <= i < |img.songs|
      ensures SoundSong(after, after.songs[i])
    {
      assert SoundSong(img, img.songs[i]);
      GrownSong(img, after, img.songs[i]);
    }
  }

  /** Growing the pools changes nothing that is read, exactly when what is added to the clip pool does
      not run on from a list at its end. */
  lemma GrownRead(img: Image, after: Image)
    requires Grown(img, after) && Sound(img)
    ensures Sound(after)
    ensures Read(after) == Read(img) <==> NotRunOn(img, after.clips[|img.clips|..])
  {
    hide High, SoundSong, SoundArtist, EndedList, ReadSong;
    GrownSound(img, after);
    var more := after.clips[|img.clips|..];
    forall i | 0 <= i < |img.songs|
      ensures ReadSong(after, after.songs[i]) == ReadSong(img, img.songs[i])
         <==> EndedList(img, img.songs[i]) || more == [] || !High(more[0])
    {
      assert SoundSong(img, img.songs[i]);
      GrownSong(img, after, img.songs[i]);
    }
    if NotRunOn(img, more) {
      assert Read(after).songs == Read(img).songs;
    } else {
      var i :| 0 <= i < |img.songs| && !EndedList(img, img.songs[i]);
      assert Read(after).songs[i] != Read(img).songs[i];
    }
  }

  lemma SongTextGrown(img: Image, name: Str, pinyin: Str, clips: Str)
    requires Sound(img)
    ensures
      var grown := img.(
        songNames := img.songNames + (name + [0]), songPys := img.songPys + (pinyin + [0]), clips := img.clips + clips);
      && Sound(grown) && Read(grown).artists == Read(img).artists && |Read(grown).songs| == |Read(img).songs|
      && (Read(grown) == Read(img) <==> NotRunOn(img, clips))
  {
    var grown := img.(
      songNames := img.songNames + (name + [0]), songPys := img.songPys + (pinyin + [0]), clips := img.clips + clips);
    GrownRead(img, grown);
    GrownSound(img, grown);
    assert grown.clips[|img.clips|..] == clips;
  }

  lemma ReadInsertArtist(img: Image, at: nat, a: ArtistRec)
    requires at <= |img.artists| && Sound(img) && SoundArtist(img, a)
    ensures
      var after := img.(artists := Insert(img.artists, at, a));
      Sound(after) && Read(after) == Catalogue(Insert(Read(img).artists, at, ReadArtist(img, a)), Read(img).songs)
  {
    var after := img.(artists := Insert(img.artists, at, a));
    assert forall x :: ReadArtist(after, x) == ReadArtist(img, x) && SoundArtist(after, x) == SoundArtist(img, x);
    assert forall x :: ReadSong(after, x) == ReadSong(img, x) && SoundSong(after, x) == SoundSong(img, x);
    assert Read(after).songs == Read(img).songs;
    assert Read(after).artists == Insert(Read(img).artists, at, ReadArtist(img, a));
  }

  lemma ReadInsertSong(img: Image, at: nat, s: SongRec)
    requires at <= |img.songs| && Sound(img)
    ensures
      var after := img.(songs := Insert(img.songs, at, s));
      && (Sound(after) <==> SoundSong(img, s))
      && Read(after) == Catalogue(Read(img).artists, Insert(Read(img).songs, at, ReadSong(img, s)))
  {
    var after := img.(songs := Insert(img.songs, at, s));
    assert forall x :: ReadArtist(after, x) == ReadArtist(img, x) && SoundArtist(after, x) == SoundArtist(img, x);
    assert forall x :: ReadSong(after, x) == ReadSong(img, x) && SoundSong(after, x) == SoundSong(img, x);
    assert Read(after).artists == Read(img).artists;
    assert Read(after).songs == Insert(Read(img).songs, at, ReadSong(img, s));
    assert after.songs[at] == s;
  }

  /** Storing an artist through the pools is inserting it into the catalogue. */
  lemma ReadPutArtist(img: Image, credits: Credits, singerIdx: U32, name: Str, pinyin: Str, at: nat)
    requires Sound(img) && NulFree(name) && NulFree(pinyin)
    requires at <= |img.artists| && |img.singerNames| < 0x1_0000_0000 && |img.singerPys| < 0x1_0000_0000
    ensures
      var after := PutArtist(img, credits, singerIdx, name, pinyin, at);
      && Sound(after)
      && Read(after)
        == Catalogue(Insert(Read(img).artists, at, Person(credits, name, pinyin, singerIdx)), Read(img).songs)
  {
    var grown := img.(singerNames := img.singerNames + (name + [0]), singerPys := img.singerPys + (pinyin + [0]));
    GrownRead(img, grown);
    assert Read(grown) == Read(img);
    CStringAppend(img.singerNames, name);
    CStringAppend(img.singerPys, pinyin);
    ReadInsertArtist(grown, at, Person(credits, |img.singerNames|, |img.singerPys|, singerIdx));
  }

  lemma InsertSame<T>(s: seq<T>, t: seq<T>, at: nat, x: T)
    requires at <= |s| == |t| && Insert(s, at, x) == Insert(t, at, x)
    ensures s == t
  {
    forall k | 0 <= k < |s|
      ensures s[k] == t[k]
    {
      var p := if k < at then k else k + 1;
      assert Insert(s, at, x)[p] == s[k] && Insert(t, at, x)[p] == t[k];
    }
  }

  /** Storing a song through the pools is inserting it into the catalogue, exactly when its clip list
      counts fewer than 128 clips or no list in the pool runs into the pool's end: such a list would
      go on through the new one. A song without a list leads nowhere if the pool holds none. */
  lemma ReadPutSong(
    img: Image, info: SongInfo, singers: Slots, authors: Slots, name: Str, pinyin: Str, clips: Option<Str>, at: nat)
    requires Sound(img) && NulFree(name) && NulFree(pinyin) && info.mediaType != VIDEO && at <= |img.songs|
    requires clips.Some? ==> IsClipList(clips.value)
    requires |img.songNames| < 0x1_0000_0000 && |img.songPys| < 0x1_0000_0000 && |img.clips| < NO_CLIPS
    ensures
      var after := PutSong(img, info, singers, authors, name, pinyin, clips, at);
      var e := Song(info, singers, authors, name, pinyin, Some(ClipsStored(img, clips)));
      && (Sound(after) <==> clips.Some? || ClipReadable(img.clips, 0))
      && (Read(after) == Catalogue(Read(img).artists, Insert(Read(img).songs, at, e))
        <==> NotRunOn(img, ClipsAdded(clips)))
  {
    hide Sound, Read, NotRunOn, Insert, CString, ClipList, IsClipList, ClipReadable;
    var more := ClipsAdded(clips);
    var grown := img.(
      songNames := img.songNames + (name + [0]), songPys := img.songPys + (pinyin + [0]), clips := img.clips + more);
    SongTextGrown(img, name, pinyin, more);
    CStringAppend(img.songNames, name);
    CStringAppend(img.songPys, pinyin);
    if clips.Some? { ClipListAppend(img.clips, clips.value); }
    assert clips.None? ==> img.clips + more == img.clips;
    var record := Song(
      info, singers, authors, |img.songNames|, |img.songPys|, if clips.Some? then |img.clips| else 0);
    var e := Song(info, singers, authors, name, pinyin, Some(ClipsStored(img, clips)));
    assert ReadSong(grown, record) == e;
    ReadInsertSong(grown, at, record);
    ReadSizes(img);
    var songs, grownSongs := Read(img).songs, Read(grown).songs;
    if Insert(grownSongs, at, e) == Insert(songs, at, e) { InsertSame(grownSongs, songs, at, e); }
  }

  /** A list just stored runs into the pool's end: no list that counts 128 clips or more can follow it. */
  lemma StoredListOpen(
    img: Image, info: SongInfo, singers: Slots, authors: Slots, name: Str, pinyin: Str, clips: Str, at: nat)
    requires IsClipList(clips) && at <= |img.songs|
    requires |img.songNames| < 0x1_0000_0000 && |img.songPys| < 0x1_0000_0000 && |img.clips| < NO_CLIPS
    ensures !Closed(PutSong(img, info, singers, authors, name, pinyin, Some(clips), at))
  {
    var after := PutSong(img, info, singers, authors, name, pinyin, Some(clips), at);
    ClipListAppend(img.clips, clips);
    assert !EndedList(after, after.songs[at]);
  }

  lemma ReadShiftSongs(img: Image, at: nat)
    requires Sound(img)
    ensures
      var after := img.(songs := ShiftSongs(img.songs, at));
      Sound(after) && Read(after) == Catalogue(Read(img).artists, ShiftSongs(Read(img).songs, at))
  {
    var after := img.(songs := ShiftSongs(img.songs, at));
    assert forall x :: ReadArtist(after, x) == ReadArtist(img, x) && SoundArtist(after, x) == SoundArtist(img, x);
    assert forall x :: ReadSong(after, ShiftSong(x, at)) == ShiftSong(ReadSong(img, x), at);
    forall i | 0 <= i < |img.songs|
      ensures SoundSong(after, after.songs[i])
    {
      assert SoundSong(img, img.songs[i]);
    }
    assert Read(after).artists == Read(img).artists;
    assert Read(after).songs == ShiftSongs(Read(img).songs, at);
  }

  /** Overwriting a record's credits in place. */
  lemma ReadSetCredits(img: Image, j: nat, credits: Credits)
    requires Sound(img) && j < |img.artists|
    ensures
      var after := img.(artists := img.artists[j := img.artists[j].(credits := credits)]);
      && Sound(after)
      && Read(after) == Read(img).(artists := Read(img).artists[j := Read(img).artists[j].(credits := credits)])
  {
    var after := img.(artists := img.artists[j := img.artists[j].(credits := credits)]);
    assert forall x :: ReadArtist(after, x) == ReadArtist(img, x) && SoundArtist(after, x) == SoundArtist(img, x);
    assert forall x :: ReadSong(after, x) == ReadSong(img, x) && SoundSong(after, x) == SoundSong(img, x);
    forall i | 0 <= i < |img.artists|
      ensures SoundArtist(after, after.artists[i])
    {
      assert SoundArtist(img, img.artists[i]);
    }
    assert Read(after).songs == Read(img).songs;
    assert Read(after).artists == Read(img).artists[j := Read(img).artists[j].(credits := credits)];
  }

  /** Overwriting a song's slots in place. */
  lemma ReadSetSlots(img: Image, j: nat, singers: Slots, authors: Slots)
    requires Sound(img) && j < |img.songs|
    ensures
      var after := img.(songs := img.songs[j := img.songs[j].(singers := singers, authors := authors)]);
      && Sound(after)
      && Read(after)
        == Read(img).(songs := Read(img).songs[j := Read(img).songs[j].(singers := singers, authors := authors)])
  {
    var after := img.(songs := img.songs[j := img.songs[j].(singers := singers, authors := authors)]);
    assert forall x :: ReadArtist(after, x) == ReadArtist(img, x) && SoundArtist(after, x) == SoundArtist(img, x);
    assert forall x :: ReadSong(after, x) == ReadSong(img, x) && SoundSong(after, x) == SoundSong(img, x);
    forall i | 0 <= i < |img.songs|
      ensures SoundSong(after, after.songs[i])
    {
      assert SoundSong(img, img.songs[i]);
    }
    assert Read(after).artists == Read(img).artists;
    assert Read(after).songs == Read(img).songs[j := Read(img).songs[j].(singers := singers, authors := authors)];
  }

  /** Deleting a record leaves its strings in the pools, unread. */
  lemma ReadRemoveSong(img: Image, j: nat)
    requires Sound(img) && j < |img.songs|
    ensures
      var after := img.(songs := Remove(img.songs, j));
      && Sound(after)
      && Read(after) == Read(img).(songs := Remove(Read(img).songs, j))
  {
    var after := img.(songs := Remove(img.songs, j));
    assert forall x :: ReadArtist(after, x) == ReadArtist(img, x) && SoundArtist(after, x) == SoundArtist(img, x);
    assert forall x :: ReadSong(after, x) == ReadSong(img, x) && SoundSong(after, x) == SoundSong(img, x);
    assert Read(after).artists == Read(img).artists;
    assert Read(after).songs == Remove(Read(img).songs, j);
  }
}
