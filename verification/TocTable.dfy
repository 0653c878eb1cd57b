/** The working tables of a merge: arrays allocated once for the old tables and the update
    together, filled from the front, shifted and overwritten in place. */
module TocTable {
  import opened Bytes
  import opened Records
  import opened Catalogue
  import opened Image
  import opened IndexMask
  import opened RecordBytes
  import opened TocFile
  import opened PoolRoom
  import opened Conservation
  import opened RunOn

  /** Lengths are kept in a uint16_t: every string of an update has to be shorter than that. */
  ghost predicate Short(s: Str) { |s| + 1 < 0x1_0000 }

  ghost predicate UsableArtist(update: Image, a: ArtistRec)
  {
    && SoundArtist(update, a)
    && Short(CString(update.singerNames, a.name)) && Short(CString(update.singerPys, a.pinyin))
  }

  /** What do_insert_song reads of a song. */
  ghost predicate CopyableSong(update: Image, s: SongRec)
  {
    && SoundSong(update, s)
    && Short(CString(update.songNames, s.name)) && Short(CString(update.songPys, s.pinyin))
    && (s.clips != NO_CLIPS ==> |ClipList(update.clips, s.clips)| < 0x1_0000)
  }

  /** What the merge reads: the clip list, and the byte of flags behind its counted part. */
  ghost predicate UsableSong(update: Image, s: SongRec)
  {
    && CopyableSong(update, s)
    && s.clips != NO_CLIPS && ExtraReadable(update.clips, s.clips)
  }

  ghost predicate UsableArtists(update: Image)
  {
    forall i | 0 <= i < |update.artists| :: UsableArtist(update, update.artists[i])
  }

  ghost predicate UsableSongs(update: Image)
  {
    forall i | 0 <= i < |update.songs| ::
      UsableSong(update, update.songs[i]) && SlotsReadable(update.songs[i], update.artists)
  }

  /** What the merge reads of an update index without checking it. */
  ghost predicate Usable(update: Image) { UsableArtists(update) && UsableSongs(update) }

  lemma UsableReads(update: Image)
    requires Usable(update)
    ensures Sound(update) && UpdateReadable(Read(update))
  {
    forall i | 0 <= i < |update.artists|
      ensures SoundArtist(update, update.artists[i])
    {
      assert UsableArtist(update, update.artists[i]);
    }
    forall i | 0 <= i < |update.songs|
      ensures SoundSong(update, update.songs[i])
        && SlotsReadable(ReadSong(update, update.songs[i]), Read(update).artists)
    {
      assert UsableSong(update, update.songs[i]) && SlotsReadable(update.songs[i], update.artists);
    }
  }

  lemma UsableSongAt(update: Image, i: nat)
    requires UsableSongs(update) && i < |update.songs|
    ensures UsableSong(update, update.songs[i]) && SlotsReadable(update.songs[i], update.artists)
  {}

  /** What do_insert_song follows the record's offsets to. */
  lemma CopyableRead(update: Image, i: nat)
    requires i < |update.songs| && CopyableSong(update, update.songs[i])
    ensures i < |Read(update).songs|
    ensures
      var s, e := update.songs[i], Read(update).songs[i];
      && e == Song(s.info, s.singers, s.authors, CString(update.songNames, s.name), CString(update.songPys, s.pinyin),
        e.clips)
      && NulFree(e.name) && NulFree(e.pinyin) && Short(e.name) && Short(e.pinyin) && s.info.mediaType != VIDEO
      && if s.clips == NO_CLIPS then e.clips == None
         else
           && ClipReadable(update.clips, s.clips) && e.clips == Some(ClipList(update.clips, s.clips))
           && |ClipList(update.clips, s.clips)| < 0x1_0000
  {
    var s := update.songs[i];
    CStringNulFree(update.songNames, s.name);
    CStringNulFree(update.songPys, s.pinyin);
  }

  /** do_insert_song stores such a song with its own list. */
  lemma UsableClips(update: Image, i: nat)
    requires UsableSongs(update) && i < |update.songs|
    ensures i < |Read(update).songs| && CopyableSong(update, update.songs[i]) && update.songs[i].clips != NO_CLIPS
    ensures Read(update).songs[i].clips.Some? && IsClipList(Read(update).songs[i].clips.value)
  {
    hide High;
    UsableSongAt(update, i);
    ClipListShape(update.clips, update.songs[i].clips);
  }

  lemma UsableSlots(update: Image, i: nat)
    requires UsableSongs(update) && i < |update.songs|
    ensures Live(update.songs[i].singers) > 0 ==> |update.artists| > 0
    ensures Live(update.songs[i].authors) > 0 ==> |update.artists| > 0
  {
    UsableSongAt(update, i);
  }

  lemma UsableSongRead(update: Image, i: nat)
    requires UsableSongs(update) && i < |update.songs|
    ensures SlotsReadable(ReadSong(update, update.songs[i]), Read(update).artists)
  {
    UsableSongAt(update, i);
  }

  lemma UsableSongsRead(update: Image)
    requires UsableSongs(update)
    ensures UpdateReadable(Read(update))
  {
    forall i | 0 <= i < |update.songs|
      ensures SlotsReadable(Read(update).songs[i], Read(update).artists)
    {
      UsableSongRead(update, i);
    }
  }

  /** What storing artist i takes of the pools. */
  lemma ArtistNeeds(update: Image, i: nat)
    requires i < |update.artists|
    ensures |Read(update).artists| == |update.artists|
    ensures
      var artists := Read(update).artists;
      && Left(NameSizes(artists), i)
         == |CString(update.singerNames, update.artists[i].name)| + 1 + Left(NameSizes(artists), i + 1)
      && Left(PinyinSizes(artists), i)
         == |CString(update.singerPys, update.artists[i].pinyin)| + 1 + Left(PinyinSizes(artists), i + 1)
      && Left(NameSizes(artists), i + 1) >= 0 && Left(PinyinSizes(artists), i + 1) >= 0
  {
    LeftStep(NameSizes(Read(update).artists), i);
    LeftStep(PinyinSizes(Read(update).artists), i);
  }

  /** What storing song i takes of the pools. */
  lemma SongNeeds(update: Image, i: nat)
    requires i < |update.songs|
    ensures |Read(update).songs| == |update.songs|
    ensures
      var songs := Read(update).songs;
      && Left(SongNameSizes(songs), i)
         == |CString(update.songNames, update.songs[i].name)| + 1 + Left(SongNameSizes(songs), i + 1)
      && Left(SongPinyinSizes(songs), i)
         == |CString(update.songPys, update.songs[i].pinyin)| + 1 + Left(SongPinyinSizes(songs), i + 1)
      && Left(SongClipSizes(songs), i) == ClipBytes(songs[i]) + Left(SongClipSizes(songs), i + 1)
      && Left(SongNameSizes(songs), i + 1) >= 0 && Left(SongPinyinSizes(songs), i + 1) >= 0
      && Left(SongClipSizes(songs), i + 1) >= 0
  {
    LeftStep(SongNameSizes(Read(update).songs), i);
    LeftStep(SongPinyinSizes(Read(update).songs), i);
    LeftStep(SongClipSizes(Read(update).songs), i);
  }

  lemma PutSongSizes(img: Image, s: SongRec, name: Str, pinyin: Str, clips: Option<Str>, at: nat)
    requires at <= |img.songs|
    requires |img.songNames| < 0x1_0000_0000 && |img.songPys| < 0x1_0000_0000 && |img.clips| < NO_CLIPS
    ensures
      var after := PutSong(img, s.info, s.singers, s.authors, name, pinyin, clips, at);
      && |after.songs| == |img.songs| + 1 && |after.songNames| == |img.songNames| + |name| + 1
      && |after.songPys| == |img.songPys| + |pinyin| + 1 && |after.clips| == |img.clips| + |ClipsAdded(clips)|
  {}

  /** The song the insertion loop stores for update song i, given the merged artists. */
  ghost function Stored(update: Image, i: nat, artists: seq<Artist>): Entry
    requires UsableSongs(update) && i < |update.songs|
  {
    UsableSongRead(update, i);
    Relinked(Read(update).songs[i], Read(update).artists, artists)
  }

  lemma ReadInfo(img: Image, i: nat)
    requires i < |img.songs|
    ensures i < |Read(img).songs| && Read(img).songs[i].info == img.songs[i].info
  {}

  lemma StoredSlots(update: Image, i: nat, artists: seq<Artist>)
    requires UsableSongs(update) && i < |update.songs|
    ensures i < |Read(update).songs|
    ensures Live(update.songs[i].singers) > 0 ==> |Read(update).artists| > 0
    ensures Live(update.songs[i].authors) > 0 ==> |Read(update).artists| > 0
    ensures Stored(update, i, artists) == Read(update).songs[i].(
      singers := Relink(update.songs[i].singers, Read(update).artists, artists),
      authors := Relink(update.songs[i].authors, Read(update).artists, artists))
  {
    UsableSlots(update, i);
  }

  /** What the insertion loop needs to know of it. */
  lemma StoredEntry(update: Image, i: nat, artists: seq<Artist>)
    requires UsableSongs(update) && i < |update.songs|
    ensures
      var e := Stored(update, i, artists);
      && i < |Read(update).songs| && e.clips == Read(update).songs[i].clips && e.name == Read(update).songs[i].name
      && e.info == update.songs[i].info
      && NulFree(e.name) && NulFree(e.pinyin) && e.info.mediaType != VIDEO
      && e.clips.Some? && IsClipList(e.clips.value)
  {
    UsableClips(update, i);
    CopyableRead(update, i);
  }

  /** Storing a record and then rewriting its slots is storing it with those slots. */
  lemma PutThenSlots(
    img: Image, info: SongInfo, singers: Slots, authors: Slots, name: Str, pinyin: Str, clips: Option<Str>, at: nat,
    t: Slots, u: Slots)
    requires at <= |img.songs|
    requires |img.songNames| < 0x1_0000_0000 && |img.songPys| < 0x1_0000_0000 && |img.clips| < NO_CLIPS
    ensures
      var after := PutSong(img, info, singers, authors, name, pinyin, clips, at);
      && at < |after.songs| && after.songs[at].singers == singers && after.songs[at].authors == authors
      && after.(songs := after.songs[at := after.songs[at].(singers := t, authors := u)])
         == PutSong(img, info, t, u, name, pinyin, clips, at)
  {}

  lemma RelinkAllAt(update: Image, i: nat, artists: seq<Artist>)
    requires UsableSongs(update) && i < |update.songs|
    ensures UpdateReadable(Read(update))
    ensures RelinkAll(Read(update).songs, Read(update).artists, artists)[i] == Stored(update, i, artists)
  {
    UsableSongsRead(update);
  }

  lemma UsableArtistAt(update: Image, i: nat)
    requires UsableArtists(update) && i < |update.artists|
    ensures UsableArtist(update, update.artists[i])
  {}

  /** The deletion marks of the update's songs. */
  ghost function Marks(update: Image): (m: seq<bool>)
    requires UsableSongs(update)
    ensures |m| == |update.songs|
  {
    seq(|update.songs|, i requires 0 <= i < |update.songs| =>
      assert UsableSong(update, update.songs[i]); MarkedDelete(update.clips, update.songs[i].clips))
  }

  lemma MarkReadable(update: Image, i: nat)
    requires UsableSongs(update) && i < |update.songs|
    ensures ExtraReadable(update.clips, update.songs[i].clips)
    ensures Marks(update)[i] == MarkedDelete(update.clips, update.songs[i].clips)
  {
    assert UsableSong(update, update.songs[i]);
  }

  /** A song of the update is marked exactly when the flags behind its n clips have the delete flag set. */
  lemma MarksIff(update: Image, i: nat, e: Extra)
    requires UsableSongs(update) && i < |update.songs|
    requires ExtraAt(update.clips, update.songs[i].clips, e)
    ensures Marks(update)[i] <==> e.delete
  {
    hide MarkedDelete;
    MarkReadable(update, i);
    MarkedDeleteIff(update.clips, update.songs[i].clips, e);
  }

  lemma RelinkRead(s: Slots, update: Image, img: Image)
    requires Live(s) > 0 ==> |update.artists| > 0
    ensures Relink(s, Read(update).artists, Read(img).artists) == Relink(s, update.artists, img.artists)
  {
    forall k | 0 <= k < Live(s)
      ensures UpdateSinger(Read(update).artists, s[k]) == UpdateSinger(update.artists, s[k])
      ensures FirstBySinger(Read(img).artists, UpdateSinger(update.artists, s[k]))
           == FirstBySinger(img.artists, UpdateSinger(update.artists, s[k]))
    {
      FirstBySingerRead(img, UpdateSinger(update.artists, s[k]));
    }
    assert Relink(s, Read(update).artists, Read(img).artists) == Relink(s, update.artists, img.artists);
  }

  lemma FirstBySingerRead(img: Image, singerIdx: U32)
    ensures FirstBySinger(Read(img).artists, singerIdx) == FirstBySinger(img.artists, singerIdx)
  {
    assert forall i | 0 <= i < |img.artists| :: Read(img).artists[i].singerIdx == img.artists[i].singerIdx;
  }

  lemma FirstByCode5Read(img: Image, code5: U32, abc: U4)
    ensures FirstByCode5(Read(img).songs, code5, abc) == FirstByCode5(img.songs, code5, abc)
  {
    assert forall i | 0 <= i < |img.songs| :: Read(img).songs[i].info == img.songs[i].info;
  }

  lemma {:induction false} ReadDeletePass(img: Image, update: Image, marks: seq<bool>, n: nat)
    requires Sound(img) && n <= |update.songs| == |marks|
    ensures |Read(update).songs| == |update.songs|
    ensures
      var after := img.(songs := DeletePass(img.songs, update.songs, marks, n));
      && Sound(after)
      && Read(after) == Read(img).(songs := DeletePass(Read(img).songs, Read(update).songs, marks, n))
  {
    hide Sound, Read, DeleteFirst;
    ReadSizes(update);
    if n == 0 {
      assert img.(songs := img.songs) == img;
    } else {
      ReadDeletePass(img, update, marks, n - 1);
      var before := img.(songs := DeletePass(img.songs, update.songs, marks, n - 1));
      var u := update.songs[n - 1].info;
      ReadInfo(update, n - 1);
      if marks[n - 1] { ReadDeleteFirst(before, u.code5, u.abc); }
    }
  }

  lemma ReadDeleteFirst(img: Image, code5: U32, abc: U4)
    requires Sound(img)
    ensures
      var after := img.(songs := DeleteFirst(img.songs, code5, abc));
      Sound(after) && Read(after) == Read(img).(songs := DeleteFirst(Read(img).songs, code5, abc))
  {
    hide Sound, Read;
    ReadSizes(img);
    FirstByCode5Read(img, code5, abc);
    var j := FirstByCode5(img.songs, code5, abc);
    if j < |img.songs| { ReadRemoveSong(img, j); }
  }

  lemma HasCode6Read(img: Image, code6: U32)
    ensures HasCode6(Read(img).songs, code6) == HasCode6(img.songs, code6)
  {
    assert forall i | 0 <= i < |img.songs| :: Read(img).songs[i].info == img.songs[i].info;
  }

  lemma DeleteFirstIs<S, C>(songs: seq<Song<S, C>>, code5: U32, abc: U4)
    ensures
      var j := FirstByCode5(songs, code5, abc);
      DeleteFirst(songs, code5, abc) == if j < |songs| then Remove(songs, j) else songs
  {}

  lemma PutArtists(
    img: Image, info: SongInfo, singers: Slots, authors: Slots, name: Str, pinyin: Str, clips: Option<Str>, at: nat)
    requires at <= |img.songs|
    requires |img.songNames| < 0x1_0000_0000 && |img.songPys| < 0x1_0000_0000 && |img.clips| < NO_CLIPS
    ensures Read(PutSong(img, info, singers, authors, name, pinyin, clips, at)).artists == Read(img).artists
  {
    var after := PutSong(img, info, singers, authors, name, pinyin, clips, at);
    assert forall x :: ReadArtist(after, x) == ReadArtist(img, x);
  }

  lemma LikeHas(img: Image, songs: seq<Entry>, clear: bool, code6: U32)
    requires Like(img, songs, clear)
    ensures HasCode6(songs, code6) <==> HasCode6(Read(img).songs, code6)
  {
    BareHas(Read(img).songs, songs, code6);
  }

  lemma LikePlace(img: Image, songs: seq<Entry>, clear: bool, e: Entry, cursor: nat, less: Less)
    requires Like(img, songs, clear) && cursor <= |songs|
    ensures |songs| == |Read(img).songs|
    ensures PlaceSong(songs, e, cursor, less) == PlaceSong(Read(img).songs, e, cursor, less)
  {
    BareSame(Read(img).songs, songs);
    if cursor < |songs| { BareFinds(Read(img).songs, songs, e.name, cursor + 1, less); }
  }

  lemma RunOnIff(img: Image, e: Entry)
    requires e.clips.Some? && IsClipList(e.clips.value)
    ensures NotRunOn(img, e.clips.value) <==> !Long(e) || Closed(img)
  {}

  lemma NothingStored(closed: bool)
    ensures ListsFit(closed, [])
  {}

  ghost predicate Leftover(img: Image, a: ArtistRec) { a == BLANK || SoundArtist(img, a) }

  /** The table takes in the cell behind it, the pools the strings of the record written behind that. */
  function PutPast(img: Image, cell: ArtistRec, name: Str, pinyin: Str): Image
  {
    img.(artists := img.artists + [cell],
         singerNames := img.singerNames + (name + [0]), singerPys := img.singerPys + (pinyin + [0]))
  }

  lemma AppendIsInsert<T>(s: seq<T>, x: T)
    ensures s + [x] == Insert(s, |s|, x)
  {}

  lemma SoundRecord(img: Image, a: ArtistRec)
    requires Terminated(img.singerNames, a.name) && Terminated(img.singerPys, a.pinyin)
    ensures SoundArtist(img, a)
  {}

  /** Once a string is in each pool, a zeroed record reads as the first ones. */
  lemma LeftoverSound(img: Image, a: ArtistRec, name: Str, pinyin: Str)
    requires Leftover(img, a)
    ensures SoundArtist(PutPast(img, a, name, pinyin), a)
    ensures
      var after := img.(singerNames := img.singerNames + (name + [0]), singerPys := img.singerPys + (pinyin + [0]));
      SoundArtist(after, a)
  {
    if a == BLANK {
      var names, pys := img.singerNames + (name + [0]), img.singerPys + (pinyin + [0]);
      assert names[|names| - 1] == 0 && pys[|pys| - 1] == 0;
    } else {
      CStringGrow(img.singerNames, name + [0], a.name);
      CStringGrow(img.singerPys, pinyin + [0], a.pinyin);
    }
  }

  lemma LeftoverGrown(img: Image, after: Image, a: ArtistRec)
    requires Leftover(img, a) && img.singerNames <= after.singerNames && img.singerPys <= after.singerPys
    ensures Leftover(after, a)
  {
    if a != BLANK {
      GrownString(img.singerNames, after.singerNames, a.name);
      GrownString(img.singerPys, after.singerPys, a.pinyin);
    }
  }

  /** file is an index that can be merged into and tells its own length; it reads as cat in everything but
      clip lists, and in those exactly if they are clear. */
  ghost predicate HoldsLike(file: Str, h: Header, cat: Catalogue, clear: bool)
  {
    && ParseFile(file) == Some(h) && |file| == h.fileLen && Loadable(Unmask(file, 0), h)
    && var held := Read(FileImage(Unmask(file, 0), h));
    && held.artists == cat.artists && Bare(held.songs) == Bare(cat.songs) && (held == cat <==> clear)
  }

  lemma LikeHolds(file: Str, h: Header, img: Image, cat: Catalogue, clear: bool)
    requires Holds(file, h, Read(img)) && Read(img).artists == cat.artists && Like(img, cat.songs, clear)
    ensures HoldsLike(file, h, cat, clear)
  {
    LikeIff(img, cat.songs, clear);
  }

  lemma SkippedRound(run: SongRun, i: nat, u: Entry, drop: bool, less: Less)
    requires run.cursor <= |run.songs| && (drop || HasCode6(run.songs, u.info.code6))
    ensures InsertRound(run, i, u, drop, less) == run
  {}

  /** The lists of the songs a merge accepts run on from nothing in the table it leaves after its deletions. */
  ghost predicate SongListsFit(img: Image, update: Image)
    requires UsableSongs(update)
  {
    var n, marks := |update.songs|, Marks(update);
    var kept := img.(songs := DeletePass(img.songs, update.songs, marks, n));
    ListsFit(Closed(kept), Accepted(Read(kept).songs, RelinkedUpdate(update, Read(img).artists), marks, n))
  }

  /** ... which is a question of the index and the update alone: neither the artists' half of the merge nor
      the slots matter. */
  ghost predicate UpdateListsFit(img: Image, update: Image)
    requires UsableSongs(update)
  {
    var n, marks := |update.songs|, Marks(update);
    var kept := img.(songs := DeletePass(img.songs, update.songs, marks, n));
    ReadSizes(update);
    ListsFit(Closed(kept), Accepted(Read(kept).songs, Read(update).songs, marks, n))
  }

  lemma UpdateListsFitIff(before: Image, img: Image, update: Image)
    requires UsableSongs(update) && SameClips(before, img)
    ensures SongListsFit(img, update) <==> UpdateListsFit(before, update)
  {
    hide Closed, ListsFit, Accepted, DeletePass, Marks;
    var n, marks := |update.songs|, Marks(update);
    var a := before.(songs := DeletePass(before.songs, update.songs, marks, n));
    var b := img.(songs := DeletePass(img.songs, update.songs, marks, n));
    SameClipsDelete(before, img, update, marks, n);
    SameClipsClosed(a, b);
    ReadSizes(update);
    var updates, linked := Read(update).songs, RelinkedUpdate(update, Read(img).artists);
    forall j | 0 <= j < |updates|
      ensures updates[j].info == linked[j].info && updates[j].clips == linked[j].clips
    {}
    SameAccepted(Read(a).songs, updates, Read(b).songs, linked, marks, n, Closed(a));
  }

  ghost function RelinkedUpdate(update: Image, artists: seq<Artist>): (r: seq<Entry>)
    requires UsableSongs(update)
    ensures |r| == |update.songs|
  {
    UsableSongsRead(update);
    RelinkAll(Read(update).songs, Read(update).artists, artists)
  }

  // ---- loading and laying out

  /** A table copied out of the file, with room for `extra` bytes more. */
  method LoadPool(mem: Str, t: Table, extra: nat) returns (pool: array<Byte>)
    requires Inside(mem, t)
    ensures fresh(pool) && pool.Length == t.size + extra
    ensures pool[..t.size] == TableBytes(mem, t)
  {
    pool := new Byte[t.size + extra](_ => 0);
    forall k | 0 <= k < t.size {
      pool[k] := mem[t.at + k];
    }
  }

  /** The loop over the artist records that moves their offsets by the same amounts. */
  method RebaseArtistTable(table: array<ArtistRec>, count: nat, name: int, pinyin: int)
    requires count <= table.Length
    modifies table
    ensures table[..count] == RebaseArtists(old(table[..count]), name, pinyin)
    ensures forall k | count <= k < table.Length :: table[k] == old(table[k])
  {
    hide Wrap32;
    for i := 0 to count
      invariant forall k | count <= k < table.Length :: table[k] == old(table[k])
      invariant forall k | 0 <= k < i :: table[k] == RebaseArtist(old(table[k]), name, pinyin)
      invariant forall k | i <= k < count :: table[k] == old(table[k])
    {
      table[i] := table[i].(name := Wrap32(table[i].name + name));
      table[i] := table[i].(pinyin := Wrap32(table[i].pinyin + pinyin));
    }
  }

  /** The same for the song records; a song without clips keeps its mark. */
  method RebaseSongTable(table: array<SongRec>, count: nat, name: int, pinyin: int, clips: int)
    requires count <= table.Length
    modifies table
    ensures table[..count] == RebaseSongs(old(table[..count]), name, pinyin, clips)
  {
    hide Wrap32;
    for i := 0 to count
      invariant forall k | 0 <= k < i :: table[k] == RebaseSong(old(table[k]), name, pinyin, clips)
      invariant forall k | i <= k < count :: table[k] == old(table[k])
    {
      table[i] := table[i].(name := Wrap32(table[i].name + name));
      table[i] := table[i].(pinyin := Wrap32(table[i].pinyin + pinyin));
      if table[i].clips != NO_CLIPS {
        table[i] := table[i].(clips := Wrap32(table[i].clips + clips));
      }
    }
  }

  /** A record of memory that was set to zero. */
  const BLANK: ArtistRec := Person(Credits(0, false, false, 0, 0, 0, 0, 0), 0, 0, 0)

  /** The records of a table copied out of the file, with zeroed room for `extra` more. */
  method CopyArtists(mem: Str, at: nat, n: nat, extra: nat) returns (table: array<ArtistRec>)
    requires at + 4 * ARTIST_WORDS * n <= |mem|
    ensures fresh(table) && table.Length == n + extra
    ensures table[..n] == ArtistsAt(mem, at, n) && forall k | n <= k < table.Length :: table[k] == BLANK
  {
    hide ArtistOf, WordAt;
    table := new ArtistRec[n + extra](_ => BLANK);
    forall i | 0 <= i < n {
      table[i] := ArtistOf(WordsAt(mem, at + 4 * ARTIST_WORDS * i, ARTIST_WORDS));
    }
  }

  method CopySongs(mem: Str, at: nat, n: nat, extra: nat) returns (table: array<SongRec>)
    requires at + 4 * SONG_WORDS * n <= |mem|
    ensures fresh(table) && table.Length == n + extra
    ensures table[..n] == SongsAt(mem, at, n)
  {
    hide SongOf, WordAt;
    table := new SongRec[n + extra];
    forall i | 0 <= i < n {
      table[i] := SongOf(WordsAt(mem, at + 4 * SONG_WORDS * i, SONG_WORDS));
    }
  }

  method LoadArtists(mem: Str, h: Header, extra: nat) returns (table: array<ArtistRec>)
    requires TablesInFile(mem, h)
    ensures fresh(table) && table.Length == h.singerNums + extra
    ensures table[..h.singerNums] == WorkImage(mem, h).artists
    ensures forall k | h.singerNums <= k < table.Length :: table[k] == BLANK
  {
    hide ArtistsAt, RebaseArtists, TableBytes;
    table := CopyArtists(mem, h.singerInfo.at, h.singerNums, extra);
    RebaseArtistTable(table, h.singerNums, 0 - h.singerName.at, 0 - h.singerPy.at);
  }

  method LoadSongs(mem: Str, h: Header, extra: nat) returns (table: array<SongRec>)
    requires TablesInFile(mem, h)
    ensures fresh(table) && table.Length == h.songNums + extra
    ensures table[..h.songNums] == WorkImage(mem, h).songs
  {
    hide SongsAt, RebaseSongs, TableBytes;
    table := CopySongs(mem, h.songInfo.at, h.songNums, extra);
    RebaseSongTable(table, h.songNums, 0 - h.songName.at, 0 - h.songPy.at, 0 - h.clip.at);
  }

  lemma WorkImageSizes(mem: Str, h: Header)
    requires TablesInFile(mem, h)
    ensures Inside(mem, h.singerName) && Inside(mem, h.songName) && Inside(mem, h.songPy)
    ensures Inside(mem, h.singerPy) && Inside(mem, h.mkv) && Inside(mem, h.clip)
    ensures
      var img := WorkImage(mem, h);
      && |img.artists| == h.singerNums && |img.songs| == h.songNums
      && img.singerNames == TableBytes(mem, h.singerName) && |img.singerNames| == h.singerName.size
      && img.songNames == TableBytes(mem, h.songName) && |img.songNames| == h.songName.size
      && img.songPys == TableBytes(mem, h.songPy) && |img.songPys| == h.songPy.size
      && img.singerPys == TableBytes(mem, h.singerPy) && |img.singerPys| == h.singerPy.size
      && img.mkvs == TableBytes(mem, h.mkv) && |img.mkvs| == h.mkv.size
      && img.clips == TableBytes(mem, h.clip) && |img.clips| == h.clip.size
  {}

  /** What is set aside beyond the tables of the file. */
  datatype Room = Room(artists: nat, songs: nat, singerName: nat, songName: nat, songPy: nat, singerPy: nat, mkv: nat,
    clip: nat)

  /** prepare_merge_toc sets aside the sizes of the update's tables. */
  function RoomFor(update: Header): Room
  {
    Room(update.singerNums, Wrap16(update.songNums), update.singerName.size, update.songName.size, update.songPy.size,
         update.singerPy.size, update.mkv.size, update.clip.size)
  }

  /** The sizes added up stay within 32 bits. */
  predicate Allocatable(h: Header, room: Room)
  {
    && h.singerName.size + room.singerName < 0x1_0000_0000 && h.songName.size + room.songName < 0x1_0000_0000
    && h.songPy.size + room.songPy < 0x1_0000_0000 && h.singerPy.size + room.singerPy < 0x1_0000_0000
    && h.mkv.size + room.mkv < 0x1_0000_0000 && h.clip.size + room.clip < NO_CLIPS
  }

  /** Everything together stays within 16-bit counts and 32-bit offsets. */
  predicate Together(h: Header, room: Room)
  {
    && Allocatable(h, room)
    && h.singerNums + room.artists < NO_ARTIST && h.songNums + room.songs < 0x1_0000
    && HEADER_SIZE + 4 * ARTIST_WORDS * (h.singerNums + room.artists) + 4 * SONG_WORDS * (h.songNums + room.songs)
       + (h.singerName.size + room.singerName) + (h.songName.size + room.songName) + (h.songPy.size + room.songPy)
       + (h.singerPy.size + room.singerPy) + (h.mkv.size + room.mkv) + (h.clip.size + room.clip) < NO_CLIPS
  }

  lemma TotalIsSum(img: Image)
    ensures Total(img) == HEADER_SIZE + 4 * ARTIST_WORDS * |img.artists| + 4 * SONG_WORDS * |img.songs|
      + |img.singerNames| + |img.songNames| + |img.songPys| + |img.singerPys| + |img.mkvs| + |img.clips|
  {
    var s := Sizes(img);
    assert Start(s, 1) == s[0] && Start(s, 2) == Start(s, 1) + s[1] && Start(s, 3) == Start(s, 2) + s[2];
    assert Start(s, 4) == Start(s, 3) + s[3] && Start(s, 5) == Start(s, 4) + s[4] && Start(s, 6) == Start(s, 5) + s[5];
    assert Start(s, 7) == Start(s, 6) + s[6] && Start(s, 8) == Start(s, 7) + s[7] && Start(s, 9) == Start(s, 8) + s[8];
  }

  /** Tables no larger than the arrays made for them can be laid out. */
  lemma FitsAfter(img: Image, h: Header, room: Room)
    requires Together(h, room)
    requires |img.artists| <= h.singerNums + room.artists && |img.songs| <= h.songNums + room.songs
    requires |img.singerNames| <= h.singerName.size + room.singerName
    requires |img.songNames| <= h.songName.size + room.songName
    requires |img.songPys| <= h.songPy.size + room.songPy && |img.singerPys| <= h.singerPy.size + room.singerPy
    requires |img.mkvs| <= h.mkv.size + room.mkv && |img.clips| <= h.clip.size + room.clip
    ensures Fits(img)
  {
    hide Total;
    TotalIsSum(img);
  }

  lemma FirstPlace(img: Image)
    requires Fits(img)
    ensures Place(img, 1).at == HEADER_SIZE
  {
    PlaceIs(img, 1);
    assert Start(Sizes(img), 1) == Start(Sizes(img), 0) + Sizes(img)[0];
  }

  /** The running offset after table k. */
  method NextTable(ghost img: Image, ghost k: nat, t: Table) returns (offset: U32)
    requires Fits(img) && k < 9 && t.at == Place(img, k).at && t.size == Wrap32(Sizes(img)[k])
    ensures t == Place(img, k)
    ensures offset == if k < 8 then Place(img, k + 1).at else Wrap32(Total(img))
  {
    offset := Wrap32(t.at + t.size);
    PlaceIs(img, k);
    TotalIs(img);
    if k < 8 {
      PlaceIs(img, k + 1);
    }
    assert Start(Sizes(img), k + 1) == Start(Sizes(img), k) + Sizes(img)[k];
  }

  lemma JoinNine(parts: seq<Str>)
    requires |parts| == 9
    ensures Join(parts, 9) == parts[0] + parts[1] + parts[2] + parts[3] + parts[4] + parts[5] + parts[6] + parts[7]
      + parts[8]
  {
    assert Join(parts, 0) == [] && Join(parts, 1) == parts[0] && Join(parts, 2) == Join(parts, 1) + parts[1];
    assert Join(parts, 3) == Join(parts, 2) + parts[2] && Join(parts, 4) == Join(parts, 3) + parts[3];
    assert Join(parts, 5) == Join(parts, 4) + parts[4] && Join(parts, 6) == Join(parts, 5) + parts[5];
    assert Join(parts, 7) == Join(parts, 6) + parts[6] && Join(parts, 8) == Join(parts, 7) + parts[7];
  }

  class TocTable {
    // header counts and sizes (Kok_IdxFileHdr_S)
    var singerNums: nat
    var songNums: nat
    var singerNameSize: nat
    var songNameSize: nat
    var songPySize: nat
    var singerPySize: nat
    var mkvSize: nat
    var clipSize: nat

    const pArtistInfo: array<ArtistRec>
    const pSongInfo: array<SongRec>
    const pSingerName: array<Byte>
    const pSongName: array<Byte>
    const pSongPyName: array<Byte>
    const pSingerPYName: array<Byte>
    const pVideoMKVName: array<Byte>
    const pVideoJPGName: array<Byte>
    const pMapIndex: array<nat>

    /** The parts of the arrays in use. */
    ghost var img: Image

    ghost function Arrays(): seq<object>
    {
      [pArtistInfo as object, pSongInfo, pMapIndex,
       pSingerName, pSongName, pSongPyName, pSingerPYName, pVideoMKVName, pVideoJPGName]
    }

    /** No two of the arrays are one. */
    ghost predicate Apart()
    {
      forall i, j | 0 <= i < j < |Arrays()| :: Arrays()[i] != Arrays()[j]
    }

    /** o, array number i, is none of the others. */
    ghost predicate Alone(o: object, i: nat)
    {
      && (i == 0 || o != pArtistInfo) && (i == 1 || o != pSongInfo) && (i == 2 || o != pMapIndex)
      && (i == 3 || o != pSingerName) && (i == 4 || o != pSongName) && (i == 5 || o != pSongPyName)
      && (i == 6 || o != pSingerPYName) && (i == 7 || o != pVideoMKVName) && (i == 8 || o != pVideoJPGName)
    }

    lemma ApartAlone()
      requires Apart()
      ensures Alone(pArtistInfo, 0) && Alone(pSongInfo, 1) && Alone(pMapIndex, 2)
      ensures Alone(pSingerName, 3) && Alone(pSongName, 4) && Alone(pSongPyName, 5)
      ensures Alone(pSingerPYName, 6) && Alone(pVideoMKVName, 7) && Alone(pVideoJPGName, 8)
    {
      var a := Arrays();
      assert a[0] == pArtistInfo && a[1] == pSongInfo && a[2] == pMapIndex && a[3] == pSingerName && a[4] == pSongName
          && a[5] == pSongPyName && a[6] == pSingerPYName && a[7] == pVideoMKVName && a[8] == pVideoJPGName;
    }

    lemma AloneApart()
      requires Alone(pArtistInfo, 0) && Alone(pSongInfo, 1) && Alone(pMapIndex, 2)
      requires Alone(pSingerName, 3) && Alone(pSongName, 4) && Alone(pSongPyName, 5)
      requires Alone(pSingerPYName, 6) && Alone(pVideoMKVName, 7) && Alone(pVideoJPGName, 8)
      ensures Apart()
    {
      var a := Arrays();
      forall i, j | 0 <= i < j < |a|
        ensures a[i] != a[j]
      {
        assert Alone(a[i], i);
      }
    }

    /** The counts are the sizes of what is in use, and within the arrays. */
    ghost predicate Counted()
      reads this
    {
      && singerNums == |img.artists| <= pArtistInfo.Length && songNums == |img.songs| <= pSongInfo.Length
      && singerNameSize == |img.singerNames| <= pSingerName.Length < 0x1_0000_0000
      && songNameSize == |img.songNames| <= pSongName.Length < 0x1_0000_0000
      && songPySize == |img.songPys| <= pSongPyName.Length < 0x1_0000_0000
      && singerPySize == |img.singerPys| <= pSingerPYName.Length < 0x1_0000_0000
      && mkvSize == |img.mkvs| <= pVideoMKVName.Length < 0x1_0000_0000
      && clipSize == |img.clips| <= pVideoJPGName.Length < NO_CLIPS
    }

    /** img is what the arrays hold. */
    ghost predicate Held()
      requires Counted()
      reads this, pArtistInfo, pSongInfo, pSingerName, pSongName, pSongPyName, pSingerPYName, pVideoMKVName,
        pVideoJPGName
    {
      && img.artists == pArtistInfo[..singerNums] && img.songs == pSongInfo[..songNums]
      && img.singerNames == pSingerName[..singerNameSize] && img.singerPys == pSingerPYName[..singerPySize]
      && img.songNames == pSongName[..songNameSize] && img.songPys == pSongPyName[..songPySize]
      && img.mkvs == pVideoMKVName[..mkvSize] && img.clips == pVideoJPGName[..clipSize]
    }

    ghost predicate Valid()
      reads this, pArtistInfo, pSongInfo, pSingerName, pSongName, pSongPyName, pSingerPYName, pVideoMKVName,
        pVideoJPGName
    {
      Counted() && Apart() && Held() && Sound(img)
    }

    /** What the array of artists holds behind the table: zeroes, or records written too far. */
    ghost predicate Tail()
      reads this, pArtistInfo
    {
      forall k | singerNums <= k < pArtistInfo.Length :: Leftover(img, pArtistInfo[k])
    }

    /** Room left for update artists i and after. */
    ghost predicate ArtistRoom(update: Image, i: nat)
      requires i <= |update.artists|
      reads this
    {
      && |img.artists| + (|update.artists| - i) <= pArtistInfo.Length
      && |img.singerNames| + Left(NameSizes(Read(update).artists), i) <= pSingerName.Length
      && |img.singerPys| + Left(PinyinSizes(Read(update).artists), i) <= pSingerPYName.Length
    }

    /** Room left for update songs i and after. */
    ghost predicate SongRoom(update: Image, i: nat)
      requires i <= |update.songs|
      reads this
    {
      && |img.songs| + (|update.songs| - i) <= pSongInfo.Length
      && |img.songNames| + Left(SongNameSizes(Read(update).songs), i) <= pSongName.Length
      && |img.songPys| + Left(SongPinyinSizes(Read(update).songs), i) <= pSongPyName.Length
      && |img.clips| + Left(SongClipSizes(Read(update).songs), i) <= pVideoJPGName.Length
    }

    // ---- making and saving

    /** prepare_merge_toc and prepare_insert_song, once the room needed is known. */
    constructor (mem: Str, h: Header, room: Room)
      requires TablesInFile(mem, h) && Sound(WorkImage(mem, h)) && Allocatable(h, room)
      ensures Valid() && img == WorkImage(mem, h) && Tail()
      ensures fresh(pArtistInfo) && fresh(pSongInfo) && fresh(pMapIndex)
      ensures fresh(pSingerName) && fresh(pSingerPYName) && fresh(pSongName) && fresh(pSongPyName)
      ensures fresh(pVideoMKVName) && fresh(pVideoJPGName)
      ensures pArtistInfo.Length == h.singerNums + room.artists && pSongInfo.Length == h.songNums + room.songs
      ensures pMapIndex.Length == room.songs
      ensures pSingerName.Length == h.singerName.size + room.singerName
      ensures pSongName.Length == h.songName.size + room.songName
      ensures pSongPyName.Length == h.songPy.size + room.songPy
      ensures pSingerPYName.Length == h.singerPy.size + room.singerPy
      ensures pVideoMKVName.Length == h.mkv.size + room.mkv && pVideoJPGName.Length == h.clip.size + room.clip
    {
      hide TablesInFile, WorkImage, Sound, TableBytes, Apart, Inside;
      WorkImageSizes(mem, h);
      singerNums, songNums := h.singerNums, h.songNums;
      singerNameSize, songNameSize, songPySize := h.singerName.size, h.songName.size, h.songPy.size;
      singerPySize, mkvSize, clipSize := h.singerPy.size, h.mkv.size, h.clip.size;
      var artists := LoadArtists(mem, h, room.artists);
      var singerNames := LoadPool(mem, h.singerName, room.singerName);
      var singerPys := LoadPool(mem, h.singerPy, room.singerPy);
      var songs := LoadSongs(mem, h, room.songs);
      var songNames := LoadPool(mem, h.songName, room.songName);
      var songPys := LoadPool(mem, h.songPy, room.songPy);
      var mkvs := LoadPool(mem, h.mkv, room.mkv);
      var clips := LoadPool(mem, h.clip, room.clip);
      pArtistInfo, pSongInfo, pMapIndex := artists, songs, new nat[room.songs];
      pSingerName, pSingerPYName, pSongName, pSongPyName := singerNames, singerPys, songNames, songPys;
      pVideoMKVName, pVideoJPGName := mkvs, clips;
      img := WorkImage(mem, h);
      new;
      AloneApart();
      assert Counted() && Held();
    }

    /** The header half of prepare_write_file: sizes, and the offset of each table in turn. */
    method LayOut(h: Header) returns (laid: Header)
      requires Counted() && Fits(img)
      ensures laid == LaidHeader(h, img)
    {
      hide Start, Total, Place;
      laid := h.(fileLen := 0, singerNums := Wrap16(singerNums), songNums := Wrap32(songNums), pyNums := 0,
        singerPyNums := 0);
      var offset: U32 := HEADER_SIZE;
      FirstPlace(img);
      laid := laid.(singerInfo := Table(Wrap32(4 * ARTIST_WORDS * singerNums), offset));
      offset := NextTable(img, 1, laid.singerInfo);
      laid := laid.(songInfo := Table(Wrap32(4 * SONG_WORDS * songNums), offset));
      offset := NextTable(img, 2, laid.songInfo);
      laid := laid.(singerName := Table(singerNameSize, offset));
      offset := NextTable(img, 3, laid.singerName);
      laid := laid.(songName := Table(songNameSize, offset));
      offset := NextTable(img, 4, laid.songName);
      laid := laid.(songPy := Table(songPySize, offset));
      offset := NextTable(img, 5, laid.songPy);
      laid := laid.(singerPy := Table(singerPySize, offset));
      offset := NextTable(img, 6, laid.singerPy);
      laid := laid.(mkv := Table(mkvSize, offset));
      offset := NextTable(img, 7, laid.mkv);
      laid := laid.(clip := Table(clipSize, offset));
      offset := NextTable(img, 8, laid.clip);
      laid := laid.(fileLen := offset);
    }

    /** prepare_write_file: afterwards the records hold offsets from the start of the file. */
    method PrepareWriteFile(h: Header, update: Header, kind: Kind) returns (laid: Header)
      requires Valid() && Fits(img)
      modifies this`img, pArtistInfo, pSongInfo
      ensures Counted() && Apart() && Held()
      ensures laid == LaidHeader(TakeVersion(h, update, kind), old(img))
      ensures img == Absolute(laid, old(img))
    {
      hide Sound, LaidHeader, TakeVersion, Fits;
      ApartAlone();
      laid := LayOut(TakeVersion(h, update, kind));
      RebaseArtistTable(pArtistInfo, singerNums, laid.singerName.at, laid.singerPy.at);
      RebaseSongTable(pSongInfo, songNums, laid.songName.at, laid.songPy.at, laid.clip.at);
      img := Absolute(laid, img);
    }

    /** The raw file of write_file: the tables one after the other. */
    method RawBytes(h: Header) returns (raw: Str)
      requires Counted() && Held()
      ensures raw == Written(h, img)
    {
      hide HeaderWords, ArtistTable, SongTable, Flat;
      raw := Flat(HeaderWords(h)) + Flat(ArtistTable(pArtistInfo[..singerNums]))
        + Flat(SongTable(pSongInfo[..songNums]))
           + pSingerName[..singerNameSize] + pSongName[..songNameSize] + pSongPyName[..songPySize]
           + pSingerPYName[..singerPySize] + pVideoMKVName[..mkvSize] + pVideoJPGName[..clipSize];
      JoinNine(Parts(h, img));
    }

    /** write_file: the raw file is read back, masked as one buffer and written again. */
    method WriteFile(h: Header) returns (file: Str)
      requires Counted() && Held() && |Written(h, img)| < 0x1_0000_0000
      ensures file == Saved(h, img)
    {
      hide Held, Written;
      var raw := RawBytes(h);
      file := MaskWhole(raw);
    }

    // ---- shared by both halves

    /** memcpy of text to the end of a pool. */
    static method Append(pool: array<Byte>, size: nat, text: Str)
      requires size + |text| <= pool.Length
      modifies pool
      ensures pool[..size + |text|] == old(pool[..size]) + text
    {
      forall k | 0 <= k < |text| {
        pool[size + k] := text[k];
      }
      assert pool[..size] == old(pool[..size]);
      assert pool[size..size + |text|] == text;
      assert pool[..size + |text|] == pool[..size] + pool[size..size + |text|];
    }

    /** A string and its NUL to the end of a pool; the length is counted in a uint16_t. */
    static method AppendText(pool: array<Byte>, size: nat, text: Str) returns (end: nat)
      requires Short(text) && size + |text| + 1 <= pool.Length
      modifies pool
      ensures end == size + |text| + 1
      ensures pool[..end] == old(pool[..size]) + (text + [0])
    {
      var length := Wrap16(|text| + 1);
      Append(pool, size, (text + [0])[..length]);
      end := size + length;
      assert (text + [0])[..length] == text + [0];
    }

    /** memmove of the records from at on by one place, then memcpy into the gap. */
    static method InsertRecord<T>(table: array<T>, count: nat, at: nat, x: T)
      requires at <= count < table.Length
      modifies table
      ensures table[..count + 1] == Insert(old(table[..count]), at, x)
      ensures forall k | count < k < table.Length :: table[k] == old(table[k])
    {
      forall k | at < k <= count {
        table[k] := table[k - 1];
      }
      table[at] := x;
    }

    /** memmove of the records after `at` down by one place. */
    static method RemoveRecord<T>(table: array<T>, count: nat, at: nat)
      requires at < count <= table.Length
      modifies table
      ensures table[..count - 1] == Remove(old(table[..count]), at)
    {
      forall k | at <= k < count - 1 {
        table[k] := table[k + 1];
      }
    }

    // ---- artists

    /** find_singer_index */
    method FindSingerIndex(name: Str, start: nat, less: Less) returns (idx: nat)
      requires Valid() && start <= singerNums
      ensures idx == FindArtist(Read(img).artists, name, start, less)
    {
      idx := start;
      while idx < singerNums
        invariant start <= idx <= singerNums
        invariant forall k | start <= k < idx :: !less(name, Read(img).artists[k].name)
      {
        var record := pArtistInfo[idx];
        assert record == img.artists[idx] && Read(img).artists[idx] == ReadArtist(img, record);
        if less(name, CString(pSingerName[..singerNameSize], record.name)) { break; }
        idx := idx + 1;
      }
    }

    /** The strings do_insert_singer copies. */
    method AppendArtistText(name: Str, pinyin: Str)
      requires Valid() && Short(name) && Short(pinyin)
      requires singerNameSize + |name| + 1 <= pSingerName.Length
      requires singerPySize + |pinyin| + 1 <= pSingerPYName.Length
      modifies this`img, this`singerNameSize, this`singerPySize, pSingerName, pSingerPYName
      ensures Valid()
      ensures img == old(img).(
        singerNames := old(img).singerNames + (name + [0]), singerPys := old(img).singerPys + (pinyin + [0]))
    {
      hide Read, Sound;
      ApartAlone();
      ghost var grown :=
        img.(singerNames := img.singerNames + (name + [0]), singerPys := img.singerPys + (pinyin + [0]));
      GrownRead(img, grown);
      img := grown;
      singerNameSize := AppendText(pSingerName, singerNameSize, name);
      singerPySize := AppendText(pSingerPYName, singerPySize, pinyin);
    }

    /** The artist record do_insert_singer copies. */
    method InsertArtistRecord(a: ArtistRec, at: nat)
      requires Valid() && SoundArtist(img, a) && at <= singerNums < pArtistInfo.Length
      modifies this`img, this`singerNums, pArtistInfo
      ensures Valid()
      ensures img == old(img).(artists := Insert(old(img).artists, at, a))
      ensures forall k | old(singerNums) < k < pArtistInfo.Length :: pArtistInfo[k] == old(pArtistInfo[k])
    {
      hide Read, Sound, Insert, SoundArtist;
      ApartAlone();
      ReadInsertArtist(img, at, a);
      img := img.(artists := Insert(img.artists, at, a));
      InsertRecord(pArtistInfo, singerNums, at, a);
      singerNums := singerNums + 1;
    }

    /** The copying half of do_insert_singer. */
    method StoreArtist(a: ArtistRec, name: Str, pinyin: Str, at: nat)
      requires Valid() && Short(name) && Short(pinyin) && NulFree(name) && NulFree(pinyin)
      requires at <= singerNums < pArtistInfo.Length
      requires singerNameSize + |name| + 1 <= pSingerName.Length
      requires singerPySize + |pinyin| + 1 <= pSingerPYName.Length
      modifies this`img, this`singerNums, this`singerNameSize, this`singerPySize, pArtistInfo, pSingerName
      modifies pSingerPYName
      ensures Valid()
      ensures img == PutArtist(old(img), Doubled(a.credits), a.singerIdx, name, pinyin, at)
      ensures forall k | old(singerNums) < k < pArtistInfo.Length :: pArtistInfo[k] == old(pArtistInfo[k])
    {
      var record := a.(credits := Doubled(a.credits), name := singerNameSize, pinyin := singerPySize);
      CStringAppend(img.singerNames, name);
      CStringAppend(img.singerPys, pinyin);
      AppendArtistText(name, pinyin);
      InsertArtistRecord(record, at);
    }

    /** The same one place behind the end of the table, which then ends with what the array held there. */
    method StoreArtistPast(a: ArtistRec, name: Str, pinyin: Str)
      requires Valid() && Short(name) && Short(pinyin) && NulFree(name) && NulFree(pinyin)
      requires singerNums + 1 < pArtistInfo.Length && Leftover(img, pArtistInfo[singerNums])
      requires singerNameSize + |name| + 1 <= pSingerName.Length
      requires singerPySize + |pinyin| + 1 <= pSingerPYName.Length
      modifies this`img, this`singerNums, this`singerNameSize, this`singerPySize, pArtistInfo, pSingerName
      modifies pSingerPYName
      ensures Valid()
      ensures img == PutPast(old(img), old(pArtistInfo[singerNums]), name, pinyin)
      ensures SoundArtist(img, pArtistInfo[singerNums])
      ensures forall k | singerNums < k < pArtistInfo.Length :: pArtistInfo[k] == old(pArtistInfo[k])
    {
      hide Sound, Read, Leftover, SoundArtist, Terminated;
      ApartAlone();
      var record := a.(credits := Doubled(a.credits), name := singerNameSize, pinyin := singerPySize);
      CStringAppend(img.singerNames, name);
      CStringAppend(img.singerPys, pinyin);
      LeftoverSound(img, pArtistInfo[singerNums], name, pinyin);
      AppendArtistText(name, pinyin);
      SoundRecord(img, record);
      WritePast(record);
    }

    method WritePast(record: ArtistRec)
      requires Valid() && singerNums + 1 < pArtistInfo.Length
      requires SoundArtist(img, record) && SoundArtist(img, pArtistInfo[singerNums])
      modifies this`img, this`singerNums, pArtistInfo
      ensures Valid() && singerNums == old(singerNums) + 1
      ensures SoundArtist(img, record) && pArtistInfo[singerNums] == record
      ensures img == old(img).(artists := old(img).artists + [old(pArtistInfo[singerNums])])
      ensures forall k | singerNums < k < pArtistInfo.Length :: pArtistInfo[k] == old(pArtistInfo[k])
    {
      hide Sound, Read, Insert, Terminated;
      ApartAlone();
      ReadInsertArtist(img, singerNums, pArtistInfo[singerNums]);
      AppendIsInsert(img.artists, pArtistInfo[singerNums]);
      pArtistInfo[singerNums + 1] := record;
      img := img.(artists := img.artists + [pArtistInfo[singerNums]]);
      singerNums := singerNums + 1;
      assert img.artists == pArtistInfo[..singerNums];
    }

    /** The two slot loops' body: stop at the first NO_ARTIST, move the rest up past at. */
    static method ShiftedSlots(s: Slots, at: nat) returns (t: Slots)
      ensures t == ShiftSlots(s, at)
    {
      t := s;
      var k := 0;
      while k < MAX_ARTIST_PER_SONG
        invariant k <= Live(s)
        invariant forall l | 0 <= l < k :: t[l] == ShiftSlots(s, at)[l]
        invariant forall l | k <= l < MAX_ARTIST_PER_SONG :: t[l] == s[l]
      {
        if t[k] == NO_ARTIST { break; }
        if t[k] >= at {
          t := t[k := Wrap16(t[k] + 1)];
        }
        k := k + 1;
      }
      assert forall l | k <= l < MAX_ARTIST_PER_SONG :: t[l] == ShiftSlots(s, at)[l];
    }

    /** The loop over all songs that moves their slots. */
    static method ShiftTable(table: array<SongRec>, count: nat, at: nat)
      requires count <= table.Length
      modifies table
      ensures table[..count] == ShiftSongs(old(table[..count]), at)
    {
      hide ShiftSlots, Live;
      ghost var was := table[..count];
      for j := 0 to count
        invariant forall i | 0 <= i < j :: table[i] == ShiftSong(was[i], at)
        invariant forall i | j <= i < count :: table[i] == was[i]
      {
        var authors := ShiftedSlots(table[j].authors, at);
        var singers := ShiftedSlots(table[j].singers, at);
        table[j] := table[j].(authors := authors, singers := singers);
      }
    }

    /** Every song's slots after an artist went in at position at. */
    method ShiftAllSongs(at: nat)
      requires Valid()
      modifies this`img, pSongInfo
      ensures Valid()
      ensures img == old(img).(songs := ShiftSongs(old(img).songs, at))
    {
      hide Read, Sound;
      ApartAlone();
      ReadShiftSongs(img, at);
      img := img.(songs := ShiftSongs(img.songs, at));
      ShiftTable(pSongInfo, songNums, at);
    }

    /** The search loop on singerIdx. */
    method FindBySinger(singerIdx: U32) returns (j: nat)
      requires Valid()
      ensures j == FirstBySinger(img.artists, singerIdx)
    {
      j := 0;
      while j < singerNums && pArtistInfo[j].singerIdx != singerIdx
        invariant j <= singerNums
        invariant forall i | 0 <= i < j :: pArtistInfo[i].singerIdx != singerIdx
      {
        j := j + 1;
      }
    }

    /** The roles an update artist adds to the record found for it. */
    method AddRoles(j: nat, credits: Credits)
      requires Valid() && j < singerNums
      modifies this`img, pArtistInfo
      ensures Valid()
      ensures img == old(img).(artists := old(img).artists[j :=
        old(img).artists[j].(credits := Promote(old(img).artists[j].credits, credits))])
      ensures forall k | singerNums <= k < pArtistInfo.Length :: pArtistInfo[k] == old(pArtistInfo[k])
    {
      hide Read, Sound, Promote;
      ApartAlone();
      ghost var promoted := Promote(img.artists[j].credits, credits);
      ReadSetCredits(img, j, promoted);
      SetRoles(pArtistInfo, j, credits);
      img := img.(artists := img.artists[j := img.artists[j].(credits := promoted)]);
      assert img.artists == pArtistInfo[..singerNums];
    }

    static method SetRoles(table: array<ArtistRec>, j: nat, credits: Credits)
      requires j < table.Length
      modifies table
      ensures table[..] == old(table[..])[j := old(table[j]).(credits := Promote(old(table[j]).credits, credits))]
    {
      if credits.isAuthor {
        table[j] := table[j].(credits := table[j].credits.(isAuthor := true));
      }
      if credits.isSinger {
        table[j] := table[j].(credits := table[j].credits.(isSinger := true));
      }
    }

    /** do_insert_singer, and the slot loops that follow it in merge_singer_info. */
    method AddSinger(update: Image, i: nat, index: nat, less: Less) returns (at: nat)
      requires Valid() && UsableArtists(update) && i < |update.artists|
      requires ArtistRoom(update, i) && index <= singerNums
      modifies this`img, this`singerNums, this`singerNameSize, this`singerPySize, pArtistInfo, pSongInfo, pSingerName
      modifies pSingerPYName
      ensures Valid() && ArtistRoom(update, i + 1)
      ensures singerNums == old(singerNums) + 1
      ensures at == if index == old(singerNums) then index
                    else FindArtist(old(Read(img)).artists, Read(update).artists[i].name, index + 1, less)
      ensures at <= old(singerNums) && SameClips(old(img), img)
      ensures Read(img) == Catalogue(
        Insert(old(Read(img)).artists, at,
               Read(update).artists[i].(credits := Doubled(Read(update).artists[i].credits))),
        ShiftSongs(old(Read(img)).songs, at))
    {
      hide Left, NameSizes, PinyinSizes, UsableArtists, Held, Apart, Sound;
      var a := update.artists[i];
      UsableArtistAt(update, i);
      var name, pinyin := CString(update.singerNames, a.name), CString(update.singerPys, a.pinyin);
      CStringNulFree(update.singerNames, a.name);
      CStringNulFree(update.singerPys, a.pinyin);
      ArtistNeeds(update, i);
      at := index;
      if index < singerNums {
        at := FindSingerIndex(name, index + 1, less);
      }
      ReadPutArtist(img, Doubled(a.credits), a.singerIdx, name, pinyin, at);
      StoreArtist(a, name, pinyin, at);
      ReadShiftSongs(img, at);
      ShiftAllSongs(at);
    }

    /** One round of merge_singer_info, for update artist i. */
    method MergeOneSinger(update: Image, i: nat, lastSort: nat, less: Less) returns (cursor: nat)
      requires Valid() && UsableArtists(update) && i < |update.artists|
      requires ArtistRoom(update, i) && lastSort <= singerNums
      modifies this`img, this`singerNums, this`singerNameSize, this`singerPySize, pArtistInfo, pSongInfo, pSingerName
      modifies pSingerPYName
      ensures Valid() && ArtistRoom(update, i + 1) && cursor <= singerNums && SameClips(old(img), img)
      ensures ArtistRun(Read(img), cursor)
        == MergeArtist(ArtistRun(old(Read(img)), lastSort), Read(update).artists[i], less)
    {
      hide Sound, Held, Apart, UsableArtists, ShiftSongs, Insert, FindArtist, Promote;
      var a := update.artists[i];
      FirstBySingerRead(img, a.singerIdx);
      cursor := lastSort;
      var j := FindBySinger(a.singerIdx);
      if j < singerNums {
        ReadSetCredits(img, j, Promote(img.artists[j].credits, a.credits));
        AddRoles(j, a.credits);
      } else if a.credits.language < 3 {
        cursor := AddSinger(update, i, lastSort, less);
      } else {
        var at := AddSinger(update, i, singerNums, less);
      }
    }

    /** merge_singer_info */
    method MergeSingerInfo(update: Image, less: Less)
      requires Valid() && UsableArtists(update) && ArtistRoom(update, 0)
      modifies this`img, this`singerNums, this`singerNameSize, this`singerPySize, pArtistInfo, pSongInfo, pSingerName
      modifies pSingerPYName
      ensures Valid() && SameClips(old(img), img)
      ensures Read(img) == MergeArtists(old(Read(img)), Read(update).artists, |update.artists|, less).cat
    {
      hide Read, Sound, UsableArtists, Counted, Held, Apart, MergeArtist;
      ghost var cat, artists := Read(img), Read(update).artists;
      ReadSizes(update);
      var lastSort: nat := 0;
      ghost var run := ArtistRun(cat, 0);
      for i := 0 to |update.artists|
        invariant Valid() && ArtistRoom(update, i) && SameClips(old(img), img)
        invariant lastSort == run.cursor <= singerNums && Read(img) == run.cat
        invariant run == MergeArtists(cat, artists, i, less)
      {
        lastSort := MergeOneSinger(update, i, lastSort, less);
        run := MergeArtist(run, artists[i], less);
      }
    }

    // ---- songs

    /** find_song_index */
    method FindSongIndex(name: Str, start: nat, less: Less) returns (idx: nat)
      requires Valid() && start <= songNums
      ensures idx == FindSong(Read(img).songs, name, start, less)
    {
      idx := start;
      while idx < songNums
        invariant start <= idx <= songNums
        invariant forall k | start <= k < idx :: !less(name, Read(img).songs[k].name)
      {
        var record := pSongInfo[idx];
        assert record == img.songs[idx] && Read(img).songs[idx] == ReadSong(img, record);
        if less(name, CString(pSongName[..songNameSize], record.name)) { break; }
        idx := idx + 1;
      }
    }

    /** The length loop of do_insert_song, over the bytes with bit 7 set. */
    static method ClipLength(mem: Str, off: nat) returns (length: nat)
      requires ClipReadable(mem, off)
      ensures length == |ClipList(mem, off)|
    {
      length := ClipFixed(mem, off);
      while off + length < |mem| && High(mem[off + length])
        invariant off + length <= |mem|
        invariant length + HighRun(mem, off + length) == |ClipList(mem, off)|
        decreases |mem| - length
      {
        length := length + 1;
      }
    }

    /** The bytes of the list, whose length is counted in a uint16_t. */
    static method CopyClips(mem: Str, off: nat) returns (clips: Str)
      requires ClipReadable(mem, off) && |ClipList(mem, off)| < 0x1_0000
      ensures clips == ClipList(mem, off)
      ensures IsClipList(clips)
    {
      hide ClipList, IsClipList, ClipReadable;
      var length := ClipLength(mem, off);
      ClipListShape(mem, off);
      SubAt(mem, off, length);
      SubIs(mem, off, ClipList(mem, off));
      clips := mem[off..off + Wrap16(length)];
    }

    /** A song's name to the end of its pool. */
    method AppendSongName(name: Str)
      requires Valid() && Short(name) && songNameSize + |name| + 1 <= pSongName.Length
      modifies this`img, this`songNameSize, pSongName
      ensures Valid()
      ensures img == old(img).(songNames := old(img).songNames + (name + [0]))
    {
      hide Read, Sound, Short;
      ApartAlone();
      ghost var grown := img.(songNames := img.songNames + (name + [0]));
      GrownSound(img, grown);
      img := grown;
      songNameSize := AppendText(pSongName, songNameSize, name);
      assert pSongName[..songNameSize] == img.songNames;
    }

    /** A song's pinyin to the end of its pool. */
    method AppendSongPy(pinyin: Str)
      requires Valid() && Short(pinyin) && songPySize + |pinyin| + 1 <= pSongPyName.Length
      modifies this`img, this`songPySize, pSongPyName
      ensures Valid()
      ensures img == old(img).(songPys := old(img).songPys + (pinyin + [0]))
    {
      hide Read, Sound, Short;
      ApartAlone();
      ghost var grown := img.(songPys := img.songPys + (pinyin + [0]));
      GrownSound(img, grown);
      img := grown;
      songPySize := AppendText(pSongPyName, songPySize, pinyin);
      assert pSongPyName[..songPySize] == img.songPys;
    }

    /** A song's clip list to the end of the pool. */
    method AppendClips(clips: Str)
      requires Valid() && clipSize + |clips| <= pVideoJPGName.Length
      modifies this`img, this`clipSize, pVideoJPGName
      ensures Valid()
      ensures img == old(img).(clips := old(img).clips + clips)
    {
      hide Read, Sound;
      ApartAlone();
      ghost var grown := img.(clips := img.clips + clips);
      GrownSound(img, grown);
      img := grown;
      Append(pVideoJPGName, clipSize, clips);
      clipSize := clipSize + |clips|;
      assert pVideoJPGName[..clipSize] == img.clips;
    }

    /** The song record do_insert_song copies. */
    method InsertSongRecord(s: SongRec, at: nat)
      requires Valid() && at <= songNums < pSongInfo.Length
      modifies this`img, this`songNums, pSongInfo
      ensures Counted() && Apart() && Held() && (Sound(img) <==> SoundSong(old(img), s))
      ensures img == old(img).(songs := Insert(old(img).songs, at, s))
    {
      hide Read, Sound, Insert, SoundSong;
      ApartAlone();
      ReadInsertSong(img, at, s);
      img := img.(songs := Insert(img.songs, at, s));
      InsertRecord(pSongInfo, songNums, at, s);
      songNums := songNums + 1;
    }

    /** The copying half of do_insert_song. */
    method StoreSong(s: SongRec, name: Str, pinyin: Str, clips: Option<Str>, at: nat)
      requires Valid() && Short(name) && Short(pinyin) && NulFree(name) && NulFree(pinyin)
      requires clips.Some? ==> IsClipList(clips.value)
      requires s.info.mediaType != VIDEO && at <= songNums < pSongInfo.Length
      requires songNameSize + |name| + 1 <= pSongName.Length
      requires songPySize + |pinyin| + 1 <= pSongPyName.Length
      requires clipSize + |ClipsAdded(clips)| <= pVideoJPGName.Length
      modifies this`img, this`songNums, this`songNameSize, this`songPySize, this`clipSize
      modifies pSongInfo, pSongName, pSongPyName, pVideoJPGName
      ensures Counted() && Apart() && Held() && (Sound(img) <==> clips.Some? || ClipReadable(old(img).clips, 0))
      ensures img == PutSong(old(img), s.info, s.singers, s.authors, name, pinyin, clips, at)
    {
      hide ClipReadable, ClipList, IsClipList;
      ghost var was := img;
      var record := s.(name := songNameSize, pinyin := songPySize, clips := if clips.Some? then clipSize else 0);
      CStringAppend(img.songNames, name);
      CStringAppend(img.songPys, pinyin);
      if clips.Some? { ClipListAppend(img.clips, clips.value); }
      assert clips.None? ==> img.clips + ClipsAdded(clips) == img.clips;
      AppendSongName(name);
      AppendSongPy(pinyin);
      AppendClips(ClipsAdded(clips));
      InsertSongRecord(record, at);
    }

    /** do_insert_song, for update song i: the table reads with the song at its place, unless a list that
        counts 128 clips or more runs on from one stored before it. */
    method DoInsertSong(update: Image, i: nat, index: nat, less: Less) returns (at: nat)
      requires Valid() && i < |update.songs| && CopyableSong(update, update.songs[i])
      requires SongRoom(update, i) && index <= songNums
      modifies this`img, this`songNums, this`songNameSize, this`songPySize, this`clipSize
      modifies pSongInfo, pSongName, pSongPyName, pVideoJPGName
      ensures Counted() && Apart() && Held() && SongRoom(update, i + 1)
      ensures Sound(img) <==> update.songs[i].clips != NO_CLIPS || ClipReadable(old(img).clips, 0)
      ensures songNums == old(songNums) + 1
      ensures at == if index == old(songNums) then index
                    else FindSong(old(Read(img)).songs, Read(update).songs[i].name, index + 1, less)
      ensures at <= old(songNums)
      ensures
        var e := Read(update).songs[i];
        img == PutSong(old(img), e.info, e.singers, e.authors, e.name, e.pinyin, e.clips, at)
      ensures
        var e := Read(update).songs[i];
        Read(img) == Catalogue(old(Read(img)).artists,
                               Insert(old(Read(img)).songs, at, e.(clips := Some(ClipsStored(old(img), e.clips)))))
        <==> old(NotRunOn(img, ClipsAdded(e.clips)))
    {
      hide Left, SongNameSizes, SongPinyinSizes, SongClipSizes, Held, Apart, Sound, NotRunOn, Insert, FindSong, CString,
           ClipList, IsClipList, Short, NulFree, Read, CopyableSong, ClipReadable, PutSong;
      var s := update.songs[i];
      CopyableRead(update, i);
      SongNeeds(update, i);
      ReadSizes(img);
      var name, pinyin := CString(update.songNames, s.name), CString(update.songPys, s.pinyin);
      at := index;
      if index < songNums {
        at := FindSongIndex(name, index + 1, less);
      }
      var clips := None;
      if s.clips != NO_CLIPS {
        var list := CopyClips(update.clips, s.clips);
        clips := Some(list);
      }
      ReadPutSong(img, s.info, s.singers, s.authors, name, pinyin, clips, at);
      PutSongSizes(img, s, name, pinyin, clips, at);
      StoreSong(s, name, pinyin, clips, at);
    }

    /** do_delete_song */
    method DoDeleteSong(index: nat)
      requires Valid() && index < songNums
      modifies this`img, this`songNums, pSongInfo
      ensures Valid() && songNums == old(songNums) - 1
      ensures img == old(img).(songs := Remove(old(img).songs, index))
      ensures Read(img) == Catalogue(old(Read(img)).artists, Remove(old(Read(img)).songs, index))
    {
      hide Read, Sound;
      ApartAlone();
      ReadRemoveSong(img, index);
      img := img.(songs := Remove(img.songs, index));
      RemoveRecord(pSongInfo, songNums, index);
      songNums := songNums - 1;
    }

    /** One round of the deletion loop. */
    method DeleteMarked(code5: U32, abc: U4)
      requires Valid()
      modifies this`img, this`songNums, pSongInfo
      ensures Valid() && songNums <= old(songNums)
      ensures img == old(img).(songs := DeleteFirst(old(img).songs, code5, abc))
    {
      hide Sound, Apart, Read, DeleteFirst;
      DeleteFirstIs(img.songs, code5, abc);
      var j := 0;
      while j < songNums
        invariant j <= songNums
        invariant forall i | 0 <= i < j :: !(pSongInfo[i].info.code5 == code5 && pSongInfo[i].info.abc == abc)
      {
        if pSongInfo[j].info.code5 == code5 && pSongInfo[j].info.abc == abc { break; }
        j := j + 1;
      }
      assert j == FirstByCode5(img.songs, code5, abc);
      if j < songNums {
        DoDeleteSong(j);
      }
    }

    /** The deletion loop of merge_songInfo. */
    method DeleteAllMarked(update: Image)
      requires Valid() && UsableSongs(update)
      modifies this`img, this`songNums, pSongInfo
      ensures Valid() && songNums <= old(songNums)
      ensures img == old(img).(songs := DeletePass(old(img).songs, update.songs, Marks(update), |update.songs|))
      ensures Read(img) == Catalogue(
        old(Read(img)).artists, DeletePass(old(Read(img)).songs, Read(update).songs, Marks(update), |update.songs|))
    {
      hide Read, Sound, Counted, Held, Apart, DeleteFirst;
      ghost var was, marks := img, Marks(update);
      ghost var songs := was.songs;
      ReadSizes(update);
      for i := 0 to |update.songs|
        invariant Valid() && songNums <= old(songNums)
        invariant songs == DeletePass(was.songs, update.songs, marks, i)
        invariant img == was.(songs := songs)
      {
        MarkReadable(update, i);
        var s := update.songs[i];
        songs := if marks[i] then DeleteFirst(songs, s.info.code5, s.info.abc) else songs;
        if MarkedDelete(update.clips, s.clips) {
          DeleteMarked(s.info.code5, s.info.abc);
        }
      }
      ReadDeletePass(was, update, marks, |update.songs|);
    }

    /** The slot loops of merge_songInfo: each update singer looked up in the merged table. */
    method RelinkedSlots(s: Slots, update: Image) returns (t: Slots)
      requires Valid() && singerNums < 0x1_0000 && (Live(s) > 0 ==> |update.artists| > 0)
      ensures t == Relink(s, update.artists, img.artists)
    {
      t := s;
      for k := 0 to MAX_ARTIST_PER_SONG
        invariant k <= Live(s)
        invariant forall l | 0 <= l < k :: t[l] == Relink(s, update.artists, img.artists)[l]
        invariant forall l | k <= l < MAX_ARTIST_PER_SONG :: t[l] == s[l]
      {
        if s[k] == NO_ARTIST {
          assert forall l | k <= l < MAX_ARTIST_PER_SONG :: t[l] == Relink(s, update.artists, img.artists)[l];
          return;
        }
        var idx := FindBySinger(UpdateSinger(update.artists, s[k]));
        if idx < singerNums {
          t := t[k := Wrap16(idx)];
        }
      }
    }

    /** The search loop on song_code6; getSongCount answers in 16 bits. */
    method SongExists(code6: U32) returns (found: bool)
      requires Valid() && songNums < 0x1_0000
      ensures found == HasCode6(img.songs, code6)
    {
      for j := 0 to Wrap16(songNums)
        invariant forall i | 0 <= i < j :: pSongInfo[i].info.code6 != code6
      {
        if pSongInfo[j].info.code6 == code6 {
          assert img.songs[j].info.code6 == code6;
          return true;
        }
      }
      return false;
    }

    method SetSlots(at: nat, singers: Slots, authors: Slots)
      requires Valid() && at < songNums
      modifies this`img, pSongInfo
      ensures Valid()
      ensures img
        == old(img).(songs := old(img).songs[at := old(img).songs[at].(singers := singers, authors := authors)])
    {
      hide Read, Sound;
      ApartAlone();
      ReadSetSlots(img, at, singers, authors);
      pSongInfo[at] := pSongInfo[at].(singers := singers, authors := authors);
      img := img.(songs := img.songs[at := img.songs[at].(singers := singers, authors := authors)]);
      assert img.songs == pSongInfo[..songNums];
    }

    /** The slot loops of merge_songInfo for the song just stored at `at`. */
    method RelinkSong(update: Image, i: nat, at: nat)
      requires Valid() && UsableSongs(update) && i < |update.songs| && at < songNums && singerNums < 0x1_0000
      requires img.songs[at].singers == update.songs[i].singers && img.songs[at].authors == update.songs[i].authors
      modifies this`img, pSongInfo
      ensures Valid()
      ensures
        var e := Stored(update, i, old(Read(img)).artists);
        img == old(img).(songs := old(img).songs[at := old(img).songs[at].(singers := e.singers, authors := e.authors)])
    {
      hide Sound, Held, Apart, UsableSongs, Live, ShiftSlots, Relink, Stored, Read;
      var s := update.songs[i];
      UsableSlots(update, i);
      var singers := RelinkedSlots(s.singers, update);
      var authors := RelinkedSlots(s.authors, update);
      RelinkRead(s.singers, update, img);
      RelinkRead(s.authors, update, img);
      StoredSlots(update, i, Read(img).artists);
      SetSlots(at, singers, authors);
    }

    /** do_insert_song and the slot loops after it, for update song i. */
    method AddSong(update: Image, i: nat, index: nat, less: Less) returns (at: nat)
      requires Valid() && UsableSongs(update) && i < |update.songs|
      requires SongRoom(update, i) && index <= songNums && singerNums < 0x1_0000
      modifies this`img, this`songNums, this`songNameSize, this`songPySize, this`clipSize
      modifies pSongInfo, pSongName, pSongPyName, pVideoJPGName
      ensures Valid() && SongRoom(update, i + 1)
      ensures songNums == old(songNums) + 1
      ensures at == if index == old(songNums) then index
                    else FindSong(old(Read(img)).songs, Read(update).songs[i].name, index + 1, less)
      ensures at <= old(songNums)
      ensures
        var e := Stored(update, i, old(Read(img)).artists);
        img == PutSong(old(img), e.info, e.singers, e.authors, e.name, e.pinyin, e.clips, at)
    {
      hide Sound, Held, Apart, UsableSongs, Insert, FindSong, Read, CopyableSong, NotRunOn, ClipsStored, ClipsAdded,
           PutSong, Stored, Relink;
      ReadSizes(update);
      ghost var was, e, f := img, Read(update).songs[i], Stored(update, i, Read(img).artists);
      UsableClips(update, i);
      StoredSlots(update, i, Read(img).artists);
      CopyableRead(update, i);
      at := DoInsertSong(update, i, index, less);
      PutThenSlots(was, e.info, e.singers, e.authors, e.name, e.pinyin, e.clips, at, f.singers, f.authors);
      PutArtists(was, e.info, e.singers, e.authors, e.name, e.pinyin, e.clips, at);
      RelinkSong(update, i, at);
    }

    /** The language test that picks where the search starts. */
    method AddSongByLanguage(update: Image, i: nat, lastSort: nat, less: Less) returns (at: nat, cursor: nat)
      requires Valid() && UsableSongs(update) && i < |update.songs|
      requires SongRoom(update, i) && lastSort <= songNums && singerNums < 0x1_0000
      modifies this`img, this`songNums, this`songNameSize, this`songPySize, this`clipSize
      modifies pSongInfo, pSongName, pSongPyName, pVideoJPGName
      ensures Valid() && SongRoom(update, i + 1)
      ensures songNums == old(songNums) + 1
      ensures
        var e := Stored(update, i, old(Read(img)).artists);
        && at == PlaceSong(old(Read(img)).songs, e, lastSort, less)
        && cursor == (if e.info.language < 3 then at else lastSort)
        && img == PutSong(old(img), e.info, e.singers, e.authors, e.name, e.pinyin, e.clips, at)
    {
      hide Sound, Held, Apart, UsableSongs, FindSong, Read, PutSong, Stored;
      ReadSizes(img);
      StoredEntry(update, i, Read(img).artists);
      cursor := lastSort;
      if update.songs[i].info.language < 3 {
        at := AddSong(update, i, lastSort, less);
        cursor := at;
      } else {
        at := AddSong(update, i, songNums, less);
      }
    }

    /** pMapIndex holds the recorded positions. */
    ghost predicate MapHolds(places: map<nat, nat>)
      reads pMapIndex
    {
      forall i | i in places :: i < pMapIndex.Length && pMapIndex[i] == places[i]
    }

    lemma NoPlaces()
      ensures MapHolds(map[])
    {}

    method RecordPlace(i: nat, at: nat, ghost places: map<nat, nat>)
      requires Valid() && i < pMapIndex.Length && MapHolds(places)
      modifies pMapIndex
      ensures Valid() && MapHolds(places[i := at])
    {
      ApartAlone();
      pMapIndex[i] := at;
    }

    /** One round of the insertion loop of merge_songInfo, for update song i. The table reads like the songs
        of run, clear or not; a song stored keeps it clear unless a list runs on into its list. */
    method InsertOneSong(
      update: Image, i: nat, lastSort: nat, ghost run: SongRun, ghost clear: bool, less: Less) returns (cursor: nat)
      requires Valid() && UsableSongs(update) && i < |update.songs|
      requires SongRoom(update, i) && lastSort <= songNums < 0x1_0000 && singerNums < 0x1_0000
      requires i < pMapIndex.Length && MapHolds(run.places)
      requires Like(img, run.songs, clear) && lastSort == run.cursor <= |run.songs|
      modifies this`img, this`songNums, this`songNameSize, this`songPySize, this`clipSize
      modifies pSongInfo, pSongName, pSongPyName, pVideoJPGName, pMapIndex
      ensures Valid() && SongRoom(update, i + 1) && songNums <= old(songNums) + 1
      ensures Read(img).artists == old(Read(img)).artists
      ensures
        var e := Stored(update, i, old(Read(img)).artists);
        var next := InsertRound(run, i, e, Marks(update)[i], less);
        && cursor == next.cursor && MapHolds(next.places) && cursor <= songNums
        && if Marks(update)[i] || HasCode6(run.songs, e.info.code6) then img == old(img)
           else Like(img, next.songs, clear && (!Long(e) || old(Closed(img)))) && !Closed(img)
    {
      hide Sound, Held, UsableSongs, HasCode6, Read, Stored, Insert, Marks, Left, SongNameSizes,
           SongPinyinSizes, SongClipSizes, Like, Closed, PutSong, IsClipList, FindSong;
      MarkReadable(update, i);
      SongNeeds(update, i);
      ReadSizes(img);
      ghost var was, e := img, Stored(update, i, Read(img).artists);
      StoredEntry(update, i, Read(img).artists);
      HasCode6Read(img, update.songs[i].info.code6);
      LikeHas(img, run.songs, clear, e.info.code6);
      cursor := lastSort;
      var s := update.songs[i];
      if MarkedDelete(update.clips, s.clips) { return; }
      var found := SongExists(s.info.code6);
      if found { return; }
      LikePlace(img, run.songs, clear, e, lastSort, less);
      var at;
      at, cursor := AddSongByLanguage(update, i, lastSort, less);
      LikePutSong(was, run.songs, clear, e, at);
      RunOnIff(was, e);
      assert MapHolds(run.places) by { ApartAlone(); }
      RecordPlace(i, at, run.places);
    }

    /** The insertion loop of merge_songInfo: the table reads as the insertion pass says in everything but clip
        lists, and in those exactly when the lists stored run on from nothing. */
    method InsertAll(update: Image, less: Less)
      requires Valid() && UsableSongs(update) && SongRoom(update, 0)
      requires songNums + |update.songs| < 0x1_0000 && singerNums < 0x1_0000 && |update.songs| <= pMapIndex.Length
      modifies this`img, this`songNums, this`songNameSize, this`songPySize, this`clipSize
      modifies pSongInfo, pSongName, pSongPyName, pVideoJPGName, pMapIndex
      ensures Valid() && UpdateReadable(Read(update)) && Read(img).artists == old(Read(img)).artists
      ensures
        var cat, from, marks := old(Read(img)), Read(update), Marks(update);
        var updates := RelinkAll(from.songs, from.artists, cat.artists);
        var run := InsertPass(cat.songs, updates, marks, |update.songs|, less);
        && Like(img, run.songs, ListsFit(old(Closed(img)), Accepted(cat.songs, updates, marks, |update.songs|)))
        && MapHolds(run.places)
    {
      hide Sound, Held, Apart, InsertRound, UsableSongs, Stored, Marks, Read, RelinkAll, UpdateReadable, SlotsReadable,
           SongRoom, MapHolds, Like, Closed, HasCode6, ListsFit, Long;
      NoPlaces();
      UsableSongsRead(update);
      LikeItself(img);
      ghost var cat, marks, closed := Read(img), Marks(update), Closed(img);
      ghost var updates := RelinkAll(Read(update).songs, Read(update).artists, cat.artists);
      ghost var run, clear := SongRun(cat.songs, 0, map[]), true;
      ReadSizes(update);
      NothingStored(closed);
      var lastSort: nat := 0;
      for i := 0 to |update.songs|
        invariant Valid() && SongRoom(update, i) && Read(img).artists == cat.artists
        invariant songNums + (|update.songs| - i) < 0x1_0000
        invariant run == InsertPass(cat.songs, updates, marks, i, less)
        invariant lastSort == run.cursor <= songNums && MapHolds(run.places) && Like(img, run.songs, clear)
        invariant clear <==> ListsFit(closed, Accepted(cat.songs, updates, marks, i))
        invariant Closed(img) <==> Accepted(cat.songs, updates, marks, i) == [] && closed
      {
        RelinkAllAt(update, i, cat.artists);
        InsertPassHas(cat.songs, updates, marks, i, less, updates[i].info.code6);
        ghost var accepted := Accepted(cat.songs, updates, marks, i);
        lastSort := InsertOneSong(update, i, lastSort, run, clear, less);
        if !marks[i] && !HasCode6(run.songs, updates[i].info.code6) {
          ListsFitNext(closed, accepted, updates[i]);
          clear := clear && (!Long(updates[i]) || (accepted == [] && closed));
        } else {
          SkippedRound(run, i, updates[i], marks[i], less);
        }
        run := InsertRound(run, i, updates[i], marks[i], less);
      }
    }

    /** merge_songInfo */
    method MergeSongInfo(update: Image, less: Less)
      requires Valid() && UsableSongs(update) && SongRoom(update, 0)
      requires songNums + |update.songs| < 0x1_0000 && singerNums < 0x1_0000 && |update.songs| <= pMapIndex.Length
      modifies this`img, this`songNums, this`songNameSize, this`songPySize, this`clipSize
      modifies pSongInfo, pSongName, pSongPyName, pVideoJPGName, pMapIndex
      ensures Valid() && UpdateReadable(Read(update)) && Read(img).artists == old(Read(img)).artists
      ensures
        var run := MergeSongs(old(Read(img)), Read(update), Marks(update), less);
        Like(img, run.songs, SongListsFit(old(img), update)) && MapHolds(run.places)
    {
      hide Read, Like, ListsFit, Closed, InsertPass, MapHolds, Held, Apart, Sound, RelinkAll;
      ghost var cat := Read(img);
      DeleteAllMarked(update);
      InsertAll(update, less);
    }
  }
}
