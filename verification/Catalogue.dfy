/** What a merge means: the two tables with their strings in place of pool offsets, and the
    steps of merge_singer_info and merge_songInfo on them. Every step is what the C code does,
    including the search that resumes after the last insertion. */
module Catalogue {
  import opened Bytes
  import opened Records

  /** Less(a, b) stands for Kok_CmpUTF8Str(a, b) < 0. */
  type Less = (Str, Str) -> bool

  type Artist = Person<Str>
  type Entry = Song<Str, Option<Str>>

  datatype Catalogue = Catalogue(artists: seq<Artist>, songs: seq<Entry>)

  function Insert<T>(s: seq<T>, at: nat, x: T): seq<T>
    requires at <= |s|
  {
    seq(|s| + 1, k requires 0 <= k < |s| + 1 => if k < at then s[k] else if k == at then x else s[k - 1])
  }

  function Remove<T>(s: seq<T>, at: nat): seq<T>
    requires at < |s|
  {
    seq(|s| - 1, k requires 0 <= k < |s| - 1 => if k < at then s[k] else s[k + 1])
  }

  lemma InsertThenSet<T>(s: seq<T>, at: nat, x: T, y: T)
    requires at <= |s|
    ensures Insert(s, at, x)[at] == x
    ensures Insert(s, at, x)[at := y] == Insert(s, at, y)
  {}

  // ---- artists

  /** First record with this singerIdx, or the length of the table. */
  function FirstBySinger<S>(artists: seq<Person<S>>, singerIdx: U32): (j: nat)
    ensures j <= |artists|
    ensures forall i | 0 <= i < j :: artists[i].singerIdx != singerIdx
    ensures j < |artists| ==> artists[j].singerIdx == singerIdx
  {
    FirstBySingerFrom(artists, singerIdx, 0)
  }

  function FirstBySingerFrom<S>(artists: seq<Person<S>>, singerIdx: U32, start: nat): (j: nat)
    requires start <= |artists|
    ensures start <= j <= |artists|
    ensures forall i | start <= i < j :: artists[i].singerIdx != singerIdx
    ensures j < |artists| ==> artists[j].singerIdx == singerIdx
    decreases |artists| - start
  {
    if start == |artists| || artists[start].singerIdx == singerIdx then start
    else FirstBySingerFrom(artists, singerIdx, start + 1)
  }

  /** First position from start on whose name the new name sorts before. */
  function FindArtist(artists: seq<Artist>, name: Str, start: nat, less: Less): (at: nat)
    requires start <= |artists|
    ensures start <= at <= |artists|
    ensures forall i | start <= i < at :: !less(name, artists[i].name)
    ensures at < |artists| ==> less(name, artists[at].name)
    decreases |artists| - start
  {
    if start == |artists| || less(name, artists[start].name) then start
    else FindArtist(artists, name, start + 1, less)
  }

  function PlaceArtist(artists: seq<Artist>, a: Artist, cursor: nat, less: Less): (at: nat)
    requires cursor <= |artists|
    ensures at <= |artists|
  {
    if a.credits.language >= 3 then |artists|
    else if cursor == |artists| then cursor
    else FindArtist(artists, a.name, cursor + 1, less)
  }

  /** A slot list after an artist was inserted at position at. */
  function ShiftSlots(s: Slots, at: nat): Slots
  {
    var n := Live(s);
    seq(MAX_ARTIST_PER_SONG, k requires 0 <= k < MAX_ARTIST_PER_SONG =>
      if k < n && s[k] >= at then Wrap16(s[k] + 1) else s[k])
  }

  function ShiftSong<S, C>(s: Song<S, C>, at: nat): Song<S, C>
  {
    s.(singers := ShiftSlots(s.singers, at), authors := ShiftSlots(s.authors, at))
  }

  function ShiftSongs<S, C>(songs: seq<Song<S, C>>, at: nat): seq<Song<S, C>>
  {
    seq(|songs|, j requires 0 <= j < |songs| => ShiftSong(songs[j], at))
  }

  function Promote(c: Credits, other: Credits): Credits
  {
    c.(isSinger := c.isSinger || other.isSinger, isAuthor := c.isAuthor || other.isAuthor)
  }

  /** An inserted record's song counts are added to themselves, in 22 bits. */
  function Doubled(c: Credits): Credits
  {
    c.(singerSongs := (c.singerSongs + c.singerSongs) % 0x40_0000,
       authorSongs := (c.authorSongs + c.authorSongs) % 0x40_0000)
  }

  datatype ArtistRun = ArtistRun(cat: Catalogue, cursor: nat)

  function MergeArtist(run: ArtistRun, a: Artist, less: Less): (r: ArtistRun)
    requires run.cursor <= |run.cat.artists|
    ensures r.cursor <= |r.cat.artists|
  {
    var artists := run.cat.artists;
    var j := FirstBySinger(artists, a.singerIdx);
    if j < |artists| then
      run.(cat := run.cat.(artists := artists[j := artists[j].(credits := Promote(artists[j].credits, a.credits))]))
    else
      var at := PlaceArtist(artists, a, run.cursor, less);
      ArtistRun(
        Catalogue(Insert(artists, at, a.(credits := Doubled(a.credits))), ShiftSongs(run.cat.songs, at)),
        if a.credits.language < 3 then at else run.cursor)
  }

  /** merge_singer_info after its first n update artists. */
  function MergeArtists(cat: Catalogue, updates: seq<Artist>, n: nat, less: Less): (r: ArtistRun)
    requires n <= |updates|
    ensures r.cursor <= |r.cat.artists|
  {
    if n == 0 then ArtistRun(cat, 0)
    else MergeArtist(MergeArtists(cat, updates, n - 1, less), updates[n - 1], less)
  }

  // ---- songs

  /** First song with this code and ABC type, or the length of the table. */
  function FirstByCode5<S, C>(songs: seq<Song<S, C>>, code5: U32, abc: U4): (j: nat)
    ensures j <= |songs|
    ensures forall i | 0 <= i < j :: !(songs[i].info.code5 == code5 && songs[i].info.abc == abc)
    ensures j < |songs| ==> songs[j].info.code5 == code5 && songs[j].info.abc == abc
  {
    FirstByCode5From(songs, code5, abc, 0)
  }

  function FirstByCode5From<S, C>(songs: seq<Song<S, C>>, code5: U32, abc: U4, start: nat): (j: nat)
    requires start <= |songs|
    ensures start <= j <= |songs|
    ensures forall i | start <= i < j :: !(songs[i].info.code5 == code5 && songs[i].info.abc == abc)
    ensures j < |songs| ==> songs[j].info.code5 == code5 && songs[j].info.abc == abc
    decreases |songs| - start
  {
    if start == |songs| || (songs[start].info.code5 == code5 && songs[start].info.abc == abc) then start
    else FirstByCode5From(songs, code5, abc, start + 1)
  }

  function DeleteFirst<S, C>(songs: seq<Song<S, C>>, code5: U32, abc: U4): seq<Song<S, C>>
  {
    var j := FirstByCode5(songs, code5, abc);
    if j < |songs| then Remove(songs, j) else songs
  }

  /** The deletion pass over the first n update songs. */
  function DeletePass<S, C, T, D>(
    songs: seq<Song<S, C>>, updates: seq<Song<T, D>>, dropped: seq<bool>, n: nat): seq<Song<S, C>>
    requires n <= |updates| == |dropped|
  {
    if n == 0 then songs
    else
      var before := DeletePass(songs, updates, dropped, n - 1);
      if dropped[n - 1] then DeleteFirst(before, updates[n - 1].info.code5, updates[n - 1].info.abc) else before
  }

  predicate HasCode6<S, C>(songs: seq<Song<S, C>>, code6: U32)
  {
    exists j | 0 <= j < |songs| :: songs[j].info.code6 == code6
  }

  function FindSong(songs: seq<Entry>, name: Str, start: nat, less: Less): (at: nat)
    requires start <= |songs|
    ensures start <= at <= |songs|
    ensures forall i | start <= i < at :: !less(name, songs[i].name)
    ensures at < |songs| ==> less(name, songs[at].name)
    decreases |songs| - start
  {
    if start == |songs| || less(name, songs[start].name) then start
    else FindSong(songs, name, start + 1, less)
  }

  function PlaceSong(songs: seq<Entry>, u: Entry, cursor: nat, less: Less): (at: nat)
    requires cursor <= |songs|
    ensures at <= |songs|
  {
    if u.info.language >= 3 then |songs|
    else if cursor == |songs| then cursor
    else FindSong(songs, u.name, cursor + 1, less)
  }

  /** getSingerInfo answers an index past the table with its first record. */
  function UpdateSinger<S>(updates: seq<Person<S>>, idx: U16): U32
    requires |updates| > 0
  {
    updates[if idx < |updates| then idx else 0].singerIdx
  }

  /** The update's slot list re-pointed at the merged artist table. */
  function Relink<S, T>(s: Slots, updates: seq<Person<S>>, artists: seq<Person<T>>): Slots
    requires Live(s) > 0 ==> |updates| > 0
  {
    var n := Live(s);
    seq(MAX_ARTIST_PER_SONG, k requires 0 <= k < MAX_ARTIST_PER_SONG =>
      if k < n && FirstBySinger(artists, UpdateSinger(updates, s[k])) < |artists|
      then Wrap16(FirstBySinger(artists, UpdateSinger(updates, s[k]))) else s[k])
  }

  ghost predicate SlotsReadable<S, C, T>(u: Song<S, C>, updates: seq<Person<T>>)
  {
    Live(u.singers) > 0 || Live(u.authors) > 0 ==> |updates| > 0
  }

  function Relinked<S, C, P, Q>(u: Song<S, C>, updates: seq<Person<P>>, artists: seq<Person<Q>>): Song<S, C>
    requires SlotsReadable(u, updates)
  {
    u.(singers := Relink(u.singers, updates, artists), authors := Relink(u.authors, updates, artists))
  }

  /** places maps an update song's index to the position it was inserted at (pMapIndex). */
  datatype SongRun = SongRun(songs: seq<Entry>, cursor: nat, places: map<nat, nat>)

  /** One round of the insertion loop: i is the update song's index, u the song to store. */
  function InsertRound(run: SongRun, i: nat, u: Entry, drop: bool, less: Less): (r: SongRun)
    requires run.cursor <= |run.songs|
    ensures r.cursor <= |r.songs|
  {
    if drop || HasCode6(run.songs, u.info.code6) then run
    else
      var at := PlaceSong(run.songs, u, run.cursor, less);
      SongRun(Insert(run.songs, at, u), if u.info.language < 3 then at else run.cursor, run.places[i := at])
  }

  /** The insertion loop after its first n update songs. */
  function InsertPass(songs: seq<Entry>, updates: seq<Entry>, dropped: seq<bool>, n: nat, less: Less): (r: SongRun)
    requires n <= |updates| == |dropped|
    ensures r.cursor <= |r.songs|
  {
    if n == 0 then SongRun(songs, 0, map[])
    else InsertRound(InsertPass(songs, updates, dropped, n - 1, less), n - 1, updates[n - 1], dropped[n - 1], less)
  }

  ghost predicate UpdateReadable(update: Catalogue)
  {
    forall i | 0 <= i < |update.songs| :: SlotsReadable(update.songs[i], update.artists)
  }

  function RelinkAll(updates: seq<Entry>, from: seq<Artist>, artists: seq<Artist>): (r: seq<Entry>)
    requires forall i | 0 <= i < |updates| :: SlotsReadable(updates[i], from)
    ensures |r| == |updates|
  {
    seq(|updates|, i requires 0 <= i < |updates| => Relinked(updates[i], from, artists))
  }

  /** merge_songInfo, with the position map it leaves behind. */
  function MergeSongs(cat: Catalogue, update: Catalogue, dropped: seq<bool>, less: Less): SongRun
    requires |dropped| == |update.songs| && UpdateReadable(update)
  {
    var kept := DeletePass(cat.songs, update.songs, dropped, |update.songs|);
    InsertPass(kept, RelinkAll(update.songs, update.artists, cat.artists), dropped, |update.songs|, less)
  }

  /** The whole merge of an update into a song index. */
  function Merge(cat: Catalogue, update: Catalogue, dropped: seq<bool>, less: Less): Catalogue
    requires |dropped| == |update.songs| && UpdateReadable(update)
  {
    var merged := MergeArtists(cat, update.artists, |update.artists|, less).cat;
    merged.(songs := MergeSongs(merged, update, dropped, less).songs)
  }
}
