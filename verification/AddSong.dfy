/** The add-song path's second half (insert_song): songs named by the caller go into the table, and
    their slots, which number the request's artists, are rewritten to the table's positions. */
module AddSong {
  import opened Bytes
  import opened Records
  import opened Catalogue
  import opened References
  import opened Conservation
  import opened AddArtist
  import opened PoolRoom

  function FirstByCode6<S, C>(songs: seq<Song<S, C>>, code6: U32, start: nat): (j: nat)
    requires start <= |songs|
    ensures start <= j <= |songs|
    ensures forall i | start <= i < j :: songs[i].info.code6 != code6
    ensures j < |songs| ==> songs[j].info.code6 == code6
    decreases |songs| - start
  {
    if start == |songs| || songs[start].info.code6 == code6 then start
    else FirstByCode6(songs, code6, start + 1)
  }

  /** do_insert_song_info was asked for a place inside the table and met the song's code there. */
  predicate Existed(songs: seq<Entry>, u: Entry, index: nat)
  {
    index < |songs| && HasCode6(songs, u.info.code6)
  }

  /** The position do_insert_song_info answers. */
  function PlaceNew(songs: seq<Entry>, u: Entry, index: nat, less: Less): (at: nat)
    requires index <= |songs|
    ensures if Existed(songs, u, index) then at < |songs| && songs[at].info.code6 == u.info.code6 else at <= |songs|
  {
    if index == |songs| then index
    else if Existed(songs, u, index) then FirstByCode6(songs, u.info.code6, 0)
    else FindSong(songs, u.name, index + 1, less)
  }

  /** The slot loops: each slot of the request whose artist has the role is overwritten. */
  function Patch(slots: Slots, wanted: Slots, roles: seq<bool>, indexes: seq<U32>): Slots
    requires |roles| == |indexes| && InTable(wanted, |indexes|)
  {
    var n := Live(wanted);
    seq(MAX_ARTIST_PER_SONG, k requires 0 <= k < MAX_ARTIST_PER_SONG =>
      if k < n && roles[wanted[k]] then Wrap16(indexes[wanted[k]]) else slots[k])
  }

  function Singers(artists: seq<Artist>): (r: seq<bool>)
    ensures |r| == |artists|
  {
    seq(|artists|, i requires 0 <= i < |artists| => artists[i].credits.isSinger)
  }

  function Authors(artists: seq<Artist>): (r: seq<bool>)
    ensures |r| == |artists|
  {
    seq(|artists|, i requires 0 <= i < |artists| => artists[i].credits.isAuthor)
  }

  function PatchSong(s: Entry, u: Entry, artists: seq<Artist>, indexes: seq<U32>): Entry
    requires |artists| == |indexes| && InTable(u.singers, |artists|) && InTable(u.authors, |artists|)
  {
    s.(singers := Patch(s.singers, u.singers, Singers(artists), indexes),
       authors := Patch(s.authors, u.authors, Authors(artists), indexes))
  }

  /** added holds the numbers of the request's songs that were stored. */
  datatype PutRun = PutRun(songs: seq<Entry>, cursor: nat, places: map<nat, nat>, added: set<nat>)

  /** One round of insert_song, for song i of the request. */
  function PutOne(run: PutRun, i: nat, u: Entry, artists: seq<Artist>, indexes: seq<U32>, less: Less): (r: PutRun)
    requires run.cursor <= |run.songs|
    requires |artists| == |indexes| && InTable(u.singers, |artists|) && InTable(u.authors, |artists|)
    ensures r.cursor <= |r.songs|
  {
    var index := if u.info.language < 3 then run.cursor else |run.songs|;
    var at := PlaceNew(run.songs, u, index, less);
    var existed := Existed(run.songs, u, index);
    var songs := if existed then run.songs else Insert(run.songs, at, u);
    PutRun(songs[at := PatchSong(songs[at], u, artists, indexes)], if u.info.language < 3 then at else run.cursor,
           run.places[i := at], if existed then run.added else run.added + {i})
  }

  /** insert_song after the first n songs of the request. */
  function PutSongs(
    songs: seq<Entry>, updates: seq<Entry>, artists: seq<Artist>, indexes: seq<U32>, n: nat, less: Less): (r: PutRun)
    requires n <= |updates| && |artists| == |indexes| && SongsInTable(updates, |artists|)
    ensures r.cursor <= |r.songs|
  {
    if n == 0 then PutRun(songs, 0, map[], {})
    else PutOne(PutSongs(songs, updates, artists, indexes, n - 1, less), n - 1, updates[n - 1], artists, indexes, less)
  }

  /** After a song of language below 3 was found in the table, the search for the next new one goes on behind the
      record found: between the two stands nothing that sorts behind the new song. */
  lemma FoundResumes(run: PutRun, i: nat, u: Entry, artists: seq<Artist>, indexes: seq<U32>, less: Less)
    requires run.cursor < |run.songs| && u.info.language < 3 && HasCode6(run.songs, u.info.code6)
    requires |artists| == |indexes| && InTable(u.singers, |artists|) && InTable(u.authors, |artists|)
    ensures
      var found := PutOne(run, i, u, artists, indexes, less);
      && found.cursor < |run.songs| == |found.songs| && found.places == run.places[i := found.cursor]
      && run.songs[found.cursor].info.code6 == u.info.code6
      && (forall k | 0 <= k < found.cursor :: run.songs[k].info.code6 != u.info.code6)
      && forall k | 0 <= k < |run.songs| :: found.songs[k].info == run.songs[k].info
  {
    hide Live, Patch, FindSong;
  }

  lemma SearchResumes(run: PutRun, i: nat, v: Entry, artists: seq<Artist>, indexes: seq<U32>, less: Less)
    requires run.cursor < |run.songs| && v.info.language < 3 && !HasCode6(run.songs, v.info.code6)
    requires |artists| == |indexes| && InTable(v.singers, |artists|) && InTable(v.authors, |artists|)
    ensures
      var put := PutOne(run, i, v, artists, indexes, less);
      && run.cursor < put.cursor < |put.songs| == |run.songs| + 1 && put.places == run.places[i := put.cursor]
      && put.songs[put.cursor].info == v.info
      && (forall k | run.cursor < k < put.cursor :: !less(v.name, run.songs[k].name))
      && (put.cursor < |run.songs| ==> less(v.name, run.songs[put.cursor].name))
      && (forall k | 0 <= k < |run.songs| :: put.songs[if k < put.cursor then k else k + 1] == run.songs[k])
  {
    hide Live, Patch, HasCode6, Insert, FindSong;
    var at := FindSong(run.songs, v.name, run.cursor + 1, less);
    InsertedBehind(run.songs, at, v, PatchSong(v, v, artists, indexes));
    InsertThenSet(run.songs, at, v, PatchSong(v, v, artists, indexes));
  }

  lemma InsertedBehind(songs: seq<Entry>, at: nat, v: Entry, x: Entry)
    requires at <= |songs|
    ensures |Insert(songs, at, x)| == |songs| + 1 == |Insert(songs, at, v)|
    ensures Insert(songs, at, x)[at] == x && Insert(songs, at, v)[at] == v
    ensures forall k | 0 <= k < |songs| :: Insert(songs, at, x)[if k < at then k else k + 1] == songs[k]
  {}

  /** Of a song just stored: a slot whose artist has the role leads where that artist's insertIndex does; any other
      one keeps the request's number, whatever stands there in the table. */
  lemma StoredSlots(run: PutRun, i: nat, u: Entry, artists: seq<Artist>, indexes: seq<U32>, less: Less, k: nat)
    requires run.cursor <= |run.songs| && !HasCode6(run.songs, u.info.code6) && k < MAX_ARTIST_PER_SONG
    requires |artists| == |indexes| && InTable(u.singers, |artists|) && InTable(u.authors, |artists|)
    ensures
      var put := PutOne(run, i, u, artists, indexes, less);
      && i in put.places && put.places[i] < |put.songs|
      && var e := put.songs[put.places[i]];
         && e == u.(singers := e.singers, authors := e.authors)
         && e.singers[k] == (if k < Live(u.singers) && artists[u.singers[k]].credits.isSinger
                             then indexes[u.singers[k]] % 0x1_0000 else u.singers[k])
         && e.authors[k] == (if k < Live(u.authors) && artists[u.authors[k]].credits.isAuthor
                             then indexes[u.authors[k]] % 0x1_0000 else u.authors[k])
  {
    hide HasCode6, FindSong, Live;
  }

  // ---- what is in the table afterwards

  lemma PickSet(songs: seq<Entry>, at: nat, x: Entry, codes: set<U32>)
    requires at < |songs| && x.info.code6 == songs[at].info.code6 && x.info.code6 in codes
    ensures Pick(songs[at := x], codes, false) == Pick(songs, codes, false)
  {
    var rest := Remove(songs, at);
    assert Insert(rest, at, songs[at]) == songs && Insert(rest, at, x) == songs[at := x];
    PickInsert(rest, at, songs[at], codes, false);
    PickInsert(rest, at, x, codes, false);
  }

  lemma PutOneKeeps(run: PutRun, i: nat, u: Entry, artists: seq<Artist>, indexes: seq<U32>, less: Less, codes: set<U32>)
    requires run.cursor <= |run.songs| && u.info.code6 in codes
    requires |artists| == |indexes| && InTable(u.singers, |artists|) && InTable(u.authors, |artists|)
    ensures Pick(PutOne(run, i, u, artists, indexes, less).songs, codes, false) == Pick(run.songs, codes, false)
  {
    hide Pick, Insert, InTable, Patch, FindSong, HasCode6;
    var index := if u.info.language < 3 then run.cursor else |run.songs|;
    var at := PlaceNew(run.songs, u, index, less);
    var put := if Existed(run.songs, u, index) then run.songs else Insert(run.songs, at, u);
    if !Existed(run.songs, u, index) {
      PickInsert(run.songs, at, u, codes, false);
      InsertAt(run.songs, at, u);
    }
    PickSet(put, at, PatchSong(put[at], u, artists, indexes), codes);
  }

  lemma InsertAt<T>(s: seq<T>, at: nat, x: T)
    requires at <= |s|
    ensures |Insert(s, at, x)| == |s| + 1 && Insert(s, at, x)[at] == x
  {}

  /** Songs whose code the request does not name stay as they are, in their order. */
  lemma {:induction false} PutSongsKeeps(
    songs: seq<Entry>, updates: seq<Entry>, artists: seq<Artist>, indexes: seq<U32>, n: nat, less: Less)
    requires n <= |updates| && |artists| == |indexes| && SongsInTable(updates, |artists|)
    ensures Pick(PutSongs(songs, updates, artists, indexes, n, less).songs, Codes(updates), false)
      == Pick(songs, Codes(updates), false)
  {
    hide Pick, PutOne, InTable;
    if n > 0 {
      PutSongsKeeps(songs, updates, artists, indexes, n - 1, less);
      PutOneKeeps(PutSongs(songs, updates, artists, indexes, n - 1, less), n - 1, updates[n - 1], artists, indexes,
        less, Codes(updates));
    }
  }

  /** Slot by slot, t names in the table the artists that wanted names in the request, as far as wanted goes. */
  ghost predicate SlotsName(wanted: Slots, updates: seq<Artist>, t: Slots, artists: seq<Artist>)
  {
    && InTable(wanted, |updates|)
    && forall k | 0 <= k < Live(wanted) :: t[k] < |artists| && artists[t[k]].name == updates[wanted[k]].name
  }

  ghost predicate EntryNames(u: Entry, updates: seq<Artist>, e: Entry, artists: seq<Artist>)
  {
    && e.info.code6 == u.info.code6
    && SlotsName(u.singers, updates, e.singers, artists) && SlotsName(u.authors, updates, e.authors, artists)
  }

  /** Every artist a song gives as singer (author) is marked as one. */
  ghost predicate RolesGiven(wanted: Slots, roles: seq<bool>)
  {
    InTable(wanted, |roles|) && forall k | 0 <= k < Live(wanted) :: roles[wanted[k]]
  }

  lemma PatchLive(s: Slots, roles: seq<bool>, people: seq<Artist>, run: AddRun)
    requires |roles| == |people| == |run.indexes| && InTable(s, |people|) && |run.cat.artists| < NO_ARTIST
    requires AllDesignate(run, people, |people|)
    ensures Live(Patch(s, s, roles, run.indexes)) == Live(s)
  {
    hide Live;
    var t := Patch(s, s, roles, run.indexes);
    forall k | 0 <= k < Live(s)
      ensures t[k] != NO_ARTIST
    {
      assert Designates(run, people, s[k]);
    }
    LiveSame(s, t);
  }

  /** e is song u as stored: everything but the slots copied, as many artists as before. */
  ghost predicate Copied(u: Entry, e: Entry)
  {
    && e == u.(singers := e.singers, authors := e.authors)
    && Live(e.singers) == Live(u.singers) && Live(e.authors) == Live(u.authors)
  }

  /** What insert_song needs of the request: every artist a song gives has the role it is given. */
  ghost predicate Askable(updates: seq<Entry>, artists: seq<Artist>)
  {
    forall i | 0 <= i < |updates| ::
      RolesGiven(updates[i].singers, Singers(artists)) && RolesGiven(updates[i].authors, Authors(artists))
  }

  lemma AskableInTable(updates: seq<Entry>, artists: seq<Artist>)
    requires Askable(updates, artists)
    ensures SongsInTable(updates, |artists|)
  {
    forall i | 0 <= i < |updates|
      ensures InTable(updates[i].singers, |artists|) && InTable(updates[i].authors, |artists|)
    {
      assert RolesGiven(updates[i].singers, Singers(artists)) && RolesGiven(updates[i].authors, Authors(artists));
    }
  }

  lemma AskableAt(updates: seq<Entry>, artists: seq<Artist>, i: nat)
    requires Askable(updates, artists) && i < |updates|
    ensures RolesGiven(updates[i].singers, Singers(artists)) && RolesGiven(updates[i].authors, Authors(artists))
  {}

  lemma PutOneAdds(run: PutRun, i: nat, u: Entry, artists: seq<Artist>, indexes: seq<U32>, less: Less)
    requires run.cursor <= |run.songs|
    requires |artists| == |indexes| && InTable(u.singers, |artists|) && InTable(u.authors, |artists|)
    ensures
      var index := if u.info.language < 3 then run.cursor else |run.songs|;
      PutOne(run, i, u, artists, indexes, less).added
      == if Existed(run.songs, u, index) then run.added else run.added + {i}
  {}

  lemma {:induction false} AddedBelow(
    songs: seq<Entry>, updates: seq<Entry>, artists: seq<Artist>, indexes: seq<U32>, n: nat, less: Less)
    requires n <= |updates| && |artists| == |indexes| && SongsInTable(updates, |artists|)
    ensures forall i | i in PutSongs(songs, updates, artists, indexes, n, less).added :: i < n
  {
    hide PutOne, Existed;
    if n > 0 {
      AddedBelow(songs, updates, artists, indexes, n - 1, less);
      PutOneAdds(PutSongs(songs, updates, artists, indexes, n - 1, less), n - 1, updates[n - 1], artists, indexes,
        less);
    }
  }

  // ---- how much room that takes

  /** Of the first n sizes, those of the songs stored. */
  function SumOf(sizes: seq<nat>, stored: set<nat>, n: nat): nat
    requires n <= |sizes|
  {
    if n == 0 then 0 else SumOf(sizes, stored, n - 1) + if n - 1 in stored then sizes[n - 1] else 0
  }

  /** A part of the request takes no more than the whole, and less unless it is the whole. */
  lemma {:induction false} PartialSum(sizes: seq<nat>, stored: set<nat>, n: nat)
    requires n <= |sizes| && forall i | 0 <= i < |sizes| :: sizes[i] > 0
    ensures SumOf(sizes, stored, n) <= Sum(sizes, n)
    ensures SumOf(sizes, stored, n) == Sum(sizes, n) <==> forall i | 0 <= i < n :: i in stored
  {
    if n > 0 {
      PartialSum(sizes, stored, n - 1);
    }
  }

  /** Numbers not in the first n do not matter. */
  lemma {:induction false} SumOfMore(sizes: seq<nat>, stored: set<nat>, n: nat, x: nat)
    requires n <= |sizes| && x >= n
    ensures SumOf(sizes, stored + {x}, n) == SumOf(sizes, stored, n)
  {
    if n > 0 {
      SumOfMore(sizes, stored, n - 1, x);
    }
  }

  /** One more number decided. */
  lemma SumOfStep(sizes: seq<nat>, stored: set<nat>, n: nat, more: bool)
    requires n < |sizes| && n !in stored
    ensures
      var after := if more then stored + {n} else stored;
      SumOf(sizes, after, n + 1) == SumOf(sizes, stored, n) + if more then sizes[n] else 0
  {
    SumOfMore(sizes, stored, n, n);
  }

  lemma {:induction false} PartialSumBound(sizes: seq<nat>, stored: set<nat>, n: nat)
    requires n <= |sizes|
    ensures SumOf(sizes, stored, n) <= Sum(sizes, n)
  {
    if n > 0 {
      PartialSumBound(sizes, stored, n - 1);
    }
  }

  /** The round's song meets no place inside the table, or no song of its code there. */
  lemma {:induction false} CodesSoFar(
    songs: seq<Entry>, updates: seq<Entry>, artists: seq<Artist>, indexes: seq<U32>, n: nat, less: Less, code6: U32)
    requires n <= |updates| && |artists| == |indexes| && SongsInTable(updates, |artists|)
    ensures
      var run := PutSongs(songs, updates, artists, indexes, n, less);
      && (HasCode6(run.songs, code6) <==> HasCode6(songs, code6) || HasCode6(updates[..n], code6))
      && (run.songs != [] ==> run.cursor < |run.songs|)
  {
    hide PutOne, InTable, HasCode6;
    if n == 0 {
      NoCodes(code6);
      assert updates[..0] == [];
    } else {
      CodesSoFar(songs, updates, artists, indexes, n - 1, less, code6);
      var run := PutSongs(songs, updates, artists, indexes, n - 1, less);
      assert updates[..n] == updates[..n - 1] + [updates[n - 1]];
      CodesOneMore(updates[..n - 1], updates[n - 1], code6);
      PutOneCodes(run, n - 1, updates[n - 1], artists, indexes, less, code6);
    }
  }

  lemma NoCodes(code6: U32)
    ensures !HasCode6<Str, Option<Str>>([], code6)
  {}

  lemma CodesOneMore(songs: seq<Entry>, x: Entry, code6: U32)
    ensures HasCode6(songs + [x], code6) <==> HasCode6(songs, code6) || x.info.code6 == code6
  {
    if HasCode6(songs, code6) {
      var j :| 0 <= j < |songs| && songs[j].info.code6 == code6;
      assert (songs + [x])[j].info.code6 == code6;
    }
    assert (songs + [x])[|songs|] == x;
  }

  lemma PutOneCodes(run: PutRun, i: nat, u: Entry, artists: seq<Artist>, indexes: seq<U32>, less: Less, code6: U32)
    requires run.cursor <= |run.songs|
    requires |artists| == |indexes| && InTable(u.singers, |artists|) && InTable(u.authors, |artists|)
    requires run.songs != [] ==> run.cursor < |run.songs|
    ensures
      var next := PutOne(run, i, u, artists, indexes, less);
      && (HasCode6(next.songs, code6) <==> HasCode6(run.songs, code6) || u.info.code6 == code6)
      && next.cursor < |next.songs|
  {
    hide Patch, InTable, HasCode6, Insert, FindSong;
    var index := if u.info.language < 3 then run.cursor else |run.songs|;
    var at := PlaceNew(run.songs, u, index, less);
    var songs := if Existed(run.songs, u, index) then run.songs else Insert(run.songs, at, u);
    if !Existed(run.songs, u, index) {
      InsertAt(run.songs, at, u);
      InsertHas(run.songs, at, u, code6);
    } else {
      HasAt(run.songs, at, code6);
    }
    SetHas(songs, at, PatchSong(songs[at], u, artists, indexes), code6);
  }

  lemma HasAt(songs: seq<Entry>, at: nat, code6: U32)
    requires at < |songs|
    ensures songs[at].info.code6 == code6 ==> HasCode6(songs, code6)
  {}

  lemma InsertHas(songs: seq<Entry>, at: nat, x: Entry, code6: U32)
    requires at <= |songs|
    ensures HasCode6(Insert(songs, at, x), code6) <==> HasCode6(songs, code6) || x.info.code6 == code6
  {
    var t := Insert(songs, at, x);
    assert t[at] == x;
    assert forall j | 0 <= j < |songs| :: t[if j < at then j else j + 1] == songs[j];
  }

  lemma SetHas(songs: seq<Entry>, at: nat, x: Entry, code6: U32)
    requires at < |songs| && x.info.code6 == songs[at].info.code6
    ensures HasCode6(songs[at := x], code6) <==> HasCode6(songs, code6)
  {
    assert forall j | 0 <= j < |songs| :: songs[at := x][j].info.code6 == songs[j].info.code6;
  }

  /** The table, or an earlier song of the request, has the code of its i-th song. */
  ghost predicate Known(songs: seq<Entry>, updates: seq<Entry>, i: nat)
    requires i < |updates|
  {
    HasCode6(songs, updates[i].info.code6) || HasCode6(updates[..i], updates[i].info.code6)
  }

  /** A song of the request is found, not stored, exactly when its language is below 3 and its code is
      known: only then does do_insert_song_info look. */
  lemma {:induction false} StoredIff(
    songs: seq<Entry>, updates: seq<Entry>, artists: seq<Artist>, indexes: seq<U32>, n: nat, less: Less, i: nat)
    requires i < n <= |updates| && |artists| == |indexes| && SongsInTable(updates, |artists|)
    ensures i in PutSongs(songs, updates, artists, indexes, n, less).added
       <==> updates[i].info.language >= 3 || !Known(songs, updates, i)
  {
    hide PutOne, InTable, HasCode6;
    var u := updates[n - 1];
    var run := PutSongs(songs, updates, artists, indexes, n - 1, less);
    PutOneAdds(run, n - 1, u, artists, indexes, less);
    if i == n - 1 {
      AddedBelow(songs, updates, artists, indexes, n - 1, less);
      CodesSoFar(songs, updates, artists, indexes, n - 1, less, u.info.code6);
      if |run.songs| == 0 { NoCodes(u.info.code6); }
    } else {
      StoredIff(songs, updates, artists, indexes, n - 1, less, i);
    }
  }

  lemma NotEarlier(updates: seq<Entry>, n: nat)
    requires n < |updates| && DistinctCodes(updates)
    ensures !HasCode6(updates[..n], updates[n].info.code6)
  {}

  /** What prepare_insert_song sets aside is never exceeded, and used up exactly when no song of
      the request is found instead of stored. */
  lemma RoomSuffices(
    songs: seq<Entry>, updates: seq<Entry>, artists: seq<Artist>, indexes: seq<U32>, less: Less, sizes: seq<nat>)
    requires |artists| == |indexes| && SongsInTable(updates, |artists|)
    requires |sizes| == |updates| && forall i | 0 <= i < |sizes| :: sizes[i] > 0
    ensures
      var added := PutSongs(songs, updates, artists, indexes, |updates|, less).added;
      && SumOf(sizes, added, |sizes|) <= Sum(sizes, |sizes|)
      && (SumOf(sizes, added, |sizes|) == Sum(sizes, |sizes|) <==>
          forall i | 0 <= i < |updates| :: updates[i].info.language >= 3 || !Known(songs, updates, i))
  {
    hide PutSongs, Known, SongsInTable;
    var added := PutSongs(songs, updates, artists, indexes, |updates|, less).added;
    PartialSum(sizes, added, |sizes|);
    forall i | 0 <= i < |updates|
      ensures i in added <==> updates[i].info.language >= 3 || !Known(songs, updates, i)
    {
      StoredIff(songs, updates, artists, indexes, |updates|, less, i);
    }
  }

  // ---- where each song of the request ends up

  /** The position the round for song u answers. */
  function RoundAt(run: PutRun, u: Entry, less: Less): (at: nat)
    requires run.cursor <= |run.songs|
    ensures at <= |run.songs|
  {
    PlaceNew(run.songs, u, if u.info.language < 3 then run.cursor else |run.songs|, less)
  }

  predicate Stores(run: PutRun, u: Entry)
  {
    !Existed(run.songs, u, if u.info.language < 3 then run.cursor else |run.songs|)
  }

  /** Where the record of song i is after n rounds: insertions at or before it move it on. */
  function Where(
    songs: seq<Entry>, updates: seq<Entry>, artists: seq<Artist>, indexes: seq<U32>, n: nat, less: Less, i: nat): nat
    requires i < n <= |updates| && |artists| == |indexes| && SongsInTable(updates, |artists|)
    decreases n
  {
    var run, u := PutSongs(songs, updates, artists, indexes, n - 1, less), updates[n - 1];
    var at := RoundAt(run, u, less);
    if i == n - 1 then at
    else
      var w := Where(songs, updates, artists, indexes, n - 1, less, i);
      if Stores(run, u) && at <= w then w + 1 else w
  }

  /** Song i is the first of its code in the table; a late song whose code is known is not. */
  ghost predicate IsFirst(songs: seq<Entry>, updates: seq<Entry>, i: nat)
    requires i < |updates|
  {
    updates[i].info.language < 3 || !Known(songs, updates, i)
  }

  /** The later song j is found to be in the table where song i is, and rewrites its slots. */
  ghost predicate Overwrites(songs: seq<Entry>, updates: seq<Entry>, i: nat, j: nat)
    requires i < |updates| && j < |updates|
  {
    updates[j].info.language < 3 && updates[j].info.code6 == updates[i].info.code6 && IsFirst(songs, updates, i)
  }

  ghost predicate Alone(songs: seq<Entry>, updates: seq<Entry>, i: nat, n: nat)
    requires i < n <= |updates|
  {
    forall j | i < j < n :: !Overwrites(songs, updates, i, j)
  }

  lemma AloneNext(songs: seq<Entry>, updates: seq<Entry>, i: nat, n: nat)
    requires i < n < |updates|
    ensures Alone(songs, updates, i, n + 1) <==> Alone(songs, updates, i, n) && !Overwrites(songs, updates, i, n)
  {
    hide Overwrites;
  }

  /** The record at w is song i's, and the first of its code exactly if song i is. */
  ghost predicate Tracks(songs: seq<Entry>, updates: seq<Entry>, i: nat, table: seq<Entry>, w: nat)
    requires i < |updates|
  {
    && w < |table| && table[w].info.code6 == updates[i].info.code6
    && if IsFirst(songs, updates, i) then FirstByCode6(table, updates[i].info.code6, 0) == w
       else FirstByCode6(table, updates[i].info.code6, 0) < w
  }

  lemma FirstIs(table: seq<Entry>, code6: U32, j: nat)
    requires j < |table| && table[j].info.code6 == code6
    requires forall k | 0 <= k < j :: table[k].info.code6 != code6
    ensures FirstByCode6(table, code6, 0) == j
  {}

  lemma FirstInsert(table: seq<Entry>, at: nat, x: Entry, code6: U32)
    requires at <= |table| && FirstByCode6(table, code6, 0) < |table|
    requires x.info.code6 != code6 || at == |table|
    ensures
      var first := FirstByCode6(table, code6, 0);
      FirstByCode6(Insert(table, at, x), code6, 0) == if at <= first then first + 1 else first
  {
    var first := FirstByCode6(table, code6, 0);
    FirstIs(Insert(table, at, x), code6, if at <= first then first + 1 else first);
  }

  lemma FirstSet(table: seq<Entry>, at: nat, x: Entry, code6: U32)
    requires at < |table| && x.info.code6 == table[at].info.code6 && FirstByCode6(table, code6, 0) < |table|
    ensures FirstByCode6(table[at := x], code6, 0) == FirstByCode6(table, code6, 0)
  {
    FirstIs(table[at := x], code6, FirstByCode6(table, code6, 0));
  }

  /** One round for another song: song i's record moves along, and is rewritten if the round overwrites it. */
  lemma RoundTracks(
    songs: seq<Entry>, updates: seq<Entry>, put: PutRun, artists: seq<Artist>, indexes: seq<U32>, less: Less,
    i: nat, j: nat, w: nat)
    requires i < |updates| && j < |updates| && |artists| == |indexes|
    requires InTable(updates[j].singers, |artists|) && InTable(updates[j].authors, |artists|)
    requires put.cursor <= |put.songs| && (put.songs != [] ==> put.cursor < |put.songs|)
    requires Tracks(songs, updates, i, put.songs, w)
    ensures
      var u := updates[j];
      var after := PutOne(put, j, u, artists, indexes, less).songs;
      var v := if Stores(put, u) && RoundAt(put, u, less) <= w then w + 1 else w;
      && Tracks(songs, updates, i, after, v)
      && after[v] == if Overwrites(songs, updates, i, j) then PatchSong(put.songs[w], u, artists, indexes)
                     else put.songs[w]
  {
    hide Patch, InTable, FindSong, IsFirst, FirstByCode6;
    var u, code6 := updates[j], updates[i].info.code6;
    var at := RoundAt(put, u, less);
    if Stores(put, u) {
      InsertAt(put.songs, at, u);
      FirstInsert(put.songs, at, u, code6);
      FirstSet(Insert(put.songs, at, u), at, PatchSong(u, u, artists, indexes), code6);
    } else {
      FirstSet(put.songs, at, PatchSong(put.songs[at], u, artists, indexes), code6);
    }
  }

  /** The round for song i itself. */
  lemma RoundStarts(
    songs: seq<Entry>, updates: seq<Entry>, put: PutRun, artists: seq<Artist>, indexes: seq<U32>, less: Less, i: nat)
    requires i < |updates| && |artists| == |indexes|
    requires InTable(updates[i].singers, |artists|) && InTable(updates[i].authors, |artists|)
    requires put.cursor <= |put.songs| && (put.songs != [] ==> put.cursor < |put.songs|)
    requires HasCode6(put.songs, updates[i].info.code6) <==> Known(songs, updates, i)
    ensures
      var u := updates[i];
      var at, after := RoundAt(put, u, less), PutOne(put, i, u, artists, indexes, less).songs;
      && Tracks(songs, updates, i, after, at)
      && after[at] == PatchSong(if Stores(put, u) then u else put.songs[at], u, artists, indexes)
  {
    hide Patch, InTable, FindSong, Known;
    var u := updates[i];
    var at := RoundAt(put, u, less);
    var code6 := u.info.code6;
    if Stores(put, u) {
      var table := Insert(put.songs, at, u);
      InsertAt(put.songs, at, u);
      if IsFirst(songs, updates, i) {
        assert !HasCode6(put.songs, code6);
        FirstIs(table, code6, at);
      } else {
        FirstInsert(put.songs, at, u, code6);
      }
      FirstSet(table, at, PatchSong(u, u, artists, indexes), code6);
    } else {
      FirstSet(put.songs, at, PatchSong(put.songs[at], u, artists, indexes), code6);
    }
  }

  /** The last song before n that wrote slot k of song i's record. */
  ghost function Writer(
    songs: seq<Entry>, updates: seq<Entry>, wanted: seq<Slots>, i: nat, k: nat, n: nat): (w: nat)
    requires i < n <= |updates| == |wanted|
    ensures i <= w < n && (k < Live(wanted[i]) ==> k < Live(wanted[w]))
  {
    if i == n - 1 then i
    else if Overwrites(songs, updates, i, n - 1) && k < Live(wanted[n - 1]) then n - 1
    else Writer(songs, updates, wanted, i, k, n - 1)
  }

  ghost predicate AllInTable(wanted: seq<Slots>, n: nat) { forall j | 0 <= j < |wanted| :: InTable(wanted[j], n) }

  /** Whoever wrote a slot last gave it an artist of the same name. */
  ghost predicate SameArtists(
    songs: seq<Entry>, updates: seq<Entry>, wanted: seq<Slots>, artists: seq<Artist>, i: nat, n: nat)
    requires i < n <= |updates| == |wanted| && AllInTable(wanted, |artists|)
  {
    forall k | 0 <= k < Live(wanted[i]) ::
      var w := Writer(songs, updates, wanted, i, k, n);
      assert InTable(wanted[w], |artists|) && InTable(wanted[i], |artists|);
      artists[wanted[w][k]].name == artists[wanted[i][k]].name
  }

  function SingerSlots(updates: seq<Entry>): (r: seq<Slots>)
    ensures |r| == |updates|
  {
    seq(|updates|, i requires 0 <= i < |updates| => updates[i].singers)
  }

  function AuthorSlots(updates: seq<Entry>): (r: seq<Slots>)
    ensures |r| == |updates|
  {
    seq(|updates|, i requires 0 <= i < |updates| => updates[i].authors)
  }

  ghost predicate KeepsArtists(songs: seq<Entry>, updates: seq<Entry>, artists: seq<Artist>, i: nat, n: nat)
    requires i < n <= |updates| && SongsInTable(updates, |artists|)
  {
    && SameArtists(songs, updates, SingerSlots(updates), artists, i, n)
    && SameArtists(songs, updates, AuthorSlots(updates), artists, i, n)
  }

  /** Each slot of t holds what its last writer put there. */
  ghost predicate SlotsWritten(
    songs: seq<Entry>, updates: seq<Entry>, wanted: seq<Slots>, indexes: seq<U32>, i: nat, n: nat, t: Slots)
    requires i < n <= |updates| == |wanted| && AllInTable(wanted, |indexes|)
  {
    forall k | 0 <= k < Live(wanted[i]) ::
      var w := Writer(songs, updates, wanted, i, k, n);
      assert InTable(wanted[w], |indexes|);
      t[k] == Wrap16(indexes[wanted[w][k]])
  }

  lemma WrittenNext(
    songs: seq<Entry>, updates: seq<Entry>, wanted: seq<Slots>, roles: seq<bool>, indexes: seq<U32>, i: nat, n: nat,
    t: Slots)
    requires i < n < |updates| == |wanted| && |roles| == |indexes|
    requires AllInTable(wanted, |indexes|) && forall j | 0 <= j < |wanted| :: RolesGiven(wanted[j], roles)
    requires SlotsWritten(songs, updates, wanted, indexes, i, n, t)
    ensures SlotsWritten(songs, updates, wanted, indexes, i, n + 1,
                    if Overwrites(songs, updates, i, n) then Patch(t, wanted[n], roles, indexes) else t)
  {
    hide Overwrites, Live;
  }

  lemma WrittenFirst(
    songs: seq<Entry>, updates: seq<Entry>, wanted: seq<Slots>, roles: seq<bool>, indexes: seq<U32>, i: nat, t: Slots)
    requires i < |updates| == |wanted| && |roles| == |indexes|
    requires AllInTable(wanted, |indexes|) && forall j | 0 <= j < |wanted| :: RolesGiven(wanted[j], roles)
    ensures SlotsWritten(songs, updates, wanted, indexes, i, i + 1, Patch(t, wanted[i], roles, indexes))
  {
    hide Live;
  }

  /** What is left of the record of song i after n rounds. */
  ghost predicate RecordOf(
    songs: seq<Entry>, updates: seq<Entry>, artists: seq<Artist>, indexes: seq<U32>, i: nat, n: nat, stored: bool,
    e: Entry)
    requires i < n <= |updates| && |artists| == |indexes| && SongsInTable(updates, |artists|)
  {
    && SlotsWritten(songs, updates, SingerSlots(updates), indexes, i, n, e.singers)
    && SlotsWritten(songs, updates, AuthorSlots(updates), indexes, i, n, e.authors)
    && (stored ==> e == updates[i].(singers := e.singers, authors := e.authors))
    && (stored && Alone(songs, updates, i, n) ==> e == PatchSong(updates[i], updates[i], artists, indexes))
  }

  lemma AskableSlots(updates: seq<Entry>, artists: seq<Artist>)
    requires Askable(updates, artists)
    ensures forall j | 0 <= j < |updates| :: RolesGiven(SingerSlots(updates)[j], Singers(artists))
    ensures forall j | 0 <= j < |updates| :: RolesGiven(AuthorSlots(updates)[j], Authors(artists))
  {
    hide RolesGiven;
    forall j | 0 <= j < |updates|
      ensures RolesGiven(SingerSlots(updates)[j], Singers(artists))
      ensures RolesGiven(AuthorSlots(updates)[j], Authors(artists))
    {
      AskableAt(updates, artists, j);
    }
  }

  lemma RecordNext(
    songs: seq<Entry>, updates: seq<Entry>, artists: seq<Artist>, indexes: seq<U32>, i: nat, n: nat, stored: bool,
    e: Entry)
    requires i < n < |updates| && |artists| == |indexes| && Askable(updates, artists)
    requires SongsInTable(updates, |artists|) && RecordOf(songs, updates, artists, indexes, i, n, stored, e)
    ensures RecordOf(songs, updates, artists, indexes, i, n + 1, stored,
                     if Overwrites(songs, updates, i, n) then PatchSong(e, updates[n], artists, indexes) else e)
  {
    hide SlotsWritten, Patch, Overwrites, Alone, Askable, RolesGiven;
    AskableSlots(updates, artists);
    AloneNext(songs, updates, i, n);
    WrittenNext(songs, updates, SingerSlots(updates), Singers(artists), indexes, i, n, e.singers);
    WrittenNext(songs, updates, AuthorSlots(updates), Authors(artists), indexes, i, n, e.authors);
  }

  lemma RecordFirst(
    songs: seq<Entry>, updates: seq<Entry>, artists: seq<Artist>, indexes: seq<U32>, i: nat, stored: bool, e: Entry)
    requires i < |updates| && |artists| == |indexes| && Askable(updates, artists)
    requires SongsInTable(updates, |artists|) && (stored ==> e == updates[i])
    ensures RecordOf(songs, updates, artists, indexes, i, i + 1, stored, PatchSong(e, updates[i], artists, indexes))
  {
    hide SlotsWritten, Patch, Askable, RolesGiven;
    AskableSlots(updates, artists);
    WrittenFirst(songs, updates, SingerSlots(updates), Singers(artists), indexes, i, e.singers);
    WrittenFirst(songs, updates, AuthorSlots(updates), Authors(artists), indexes, i, e.authors);
  }

  lemma {:induction false} PutSongsTrack(
    songs: seq<Entry>, updates: seq<Entry>, artists: seq<Artist>, indexes: seq<U32>, n: nat, less: Less, i: nat)
    requires i < n <= |updates| && |artists| == |indexes| && SongsInTable(updates, |artists|)
    requires Askable(updates, artists)
    ensures
      var run := PutSongs(songs, updates, artists, indexes, n, less);
      var w := Where(songs, updates, artists, indexes, n, less, i);
      && Tracks(songs, updates, i, run.songs, w)
      && RecordOf(songs, updates, artists, indexes, i, n, i in run.added, run.songs[w])
  {
    hide PutOne, InTable, Tracks, RecordOf, HasCode6, Askable, RoundAt, Stores, Overwrites, PatchSong;
    var u := updates[n - 1];
    var put := PutSongs(songs, updates, artists, indexes, n - 1, less);
    AddedBelow(songs, updates, artists, indexes, n - 1, less);
    CodesSoFar(songs, updates, artists, indexes, n - 1, less, u.info.code6);
    StoredOrFound(put, n - 1, u, artists, indexes, less);
    if i == n - 1 {
      RoundStarts(songs, updates, put, artists, indexes, less, i);
      var at := RoundAt(put, u, less);
      RecordFirst(songs, updates, artists, indexes, i, Stores(put, u), if Stores(put, u) then u else put.songs[at]);
    } else {
      PutSongsTrack(songs, updates, artists, indexes, n - 1, less, i);
      var w := Where(songs, updates, artists, indexes, n - 1, less, i);
      TrackedInside(songs, updates, i, put.songs, w);
      RoundTracks(songs, updates, put, artists, indexes, less, i, n - 1, w);
      RecordNext(songs, updates, artists, indexes, i, n - 1, i in put.added, put.songs[w]);
    }
  }

  lemma TrackedInside(songs: seq<Entry>, updates: seq<Entry>, i: nat, table: seq<Entry>, w: nat)
    requires i < |updates| && Tracks(songs, updates, i, table, w)
    ensures w < |table| && table[w].info.code6 == updates[i].info.code6
  {}

  lemma StoredOrFound(put: PutRun, i: nat, u: Entry, artists: seq<Artist>, indexes: seq<U32>, less: Less)
    requires put.cursor <= |put.songs|
    requires |artists| == |indexes| && InTable(u.singers, |artists|) && InTable(u.authors, |artists|)
    ensures PutOne(put, i, u, artists, indexes, less).added == if Stores(put, u) then put.added + {i} else put.added
    ensures !Stores(put, u) ==> RoundAt(put, u, less) < |put.songs|
  {
    PutOneAdds(put, i, u, artists, indexes, less);
  }

  lemma WrittenNames(
    songs: seq<Entry>, updates: seq<Entry>, wanted: seq<Slots>, people: seq<Artist>, run: AddRun, i: nat, n: nat,
    t: Slots)
    requires i < n <= |updates| == |wanted| && |people| == |run.indexes| && |run.cat.artists| < NO_ARTIST
    requires AllInTable(wanted, |people|)
    requires AllDesignate(run, people, |people|) && SlotsWritten(songs, updates, wanted, run.indexes, i, n, t)
    ensures SlotsName(wanted[i], people, t, run.cat.artists)
       <==> SameArtists(songs, updates, wanted, people, i, n)
  {
    hide Live, Overwrites;
    assert InTable(wanted[i], |people|);
    forall k | 0 <= k < Live(wanted[i])
      ensures
        var w := Writer(songs, updates, wanted, i, k, n);
        t[k] < |run.cat.artists| && run.cat.artists[t[k]].name == people[wanted[w][k]].name
    {
      var w := Writer(songs, updates, wanted, i, k, n);
      assert InTable(wanted[w], |people|);
      assert Designates(run, people, wanted[w][k]);
    }
  }

  lemma PatchedLive(updates: seq<Entry>, people: seq<Artist>, run: AddRun, i: nat)
    requires i < |updates| && |people| == |run.indexes| && |run.cat.artists| < NO_ARTIST
    requires SongsInTable(updates, |people|) && AllDesignate(run, people, |people|)
    ensures Copied(updates[i], PatchSong(updates[i], updates[i], people, run.indexes))
  {
    hide Patch, Live, AllDesignate;
    PatchLive(updates[i].singers, Singers(people), people, run);
    PatchLive(updates[i].authors, Authors(people), people, run);
  }

  /** What has become of song i: a record with its code, copied whole if it was stored, that names the
      song's artists exactly when no later song of its code wrote others over them. */
  ghost predicate EndsUp(
    songs: seq<Entry>, updates: seq<Entry>, people: seq<Artist>, run: AddRun, n: nat, less: Less, i: nat)
    requires i < n <= |updates| && |people| == |run.indexes| && SongsInTable(updates, |people|)
  {
    var put := PutSongs(songs, updates, people, run.indexes, n, less);
    var w := Where(songs, updates, people, run.indexes, n, less, i);
    && w < |put.songs| && put.songs[w].info.code6 == updates[i].info.code6
    && (i in put.added ==> var e := put.songs[w]; e == updates[i].(singers := e.singers, authors := e.authors))
    && (i in put.added && Alone(songs, updates, i, n) ==> Copied(updates[i], put.songs[w]))
    && (EntryNames(updates[i], people, put.songs[w], run.cat.artists) <==> KeepsArtists(songs, updates, people, i, n))
  }

  lemma PutSongsLandIff(
    songs: seq<Entry>, updates: seq<Entry>, people: seq<Artist>, run: AddRun, n: nat, less: Less, i: nat)
    requires i < n <= |updates| && |people| == |run.indexes|
    requires Askable(updates, people) && SongsInTable(updates, |people|)
    requires |run.cat.artists| < NO_ARTIST && AllDesignate(run, people, |people|)
    ensures EndsUp(songs, updates, people, run, n, less, i)
  {
    hide PutSongs, Where, SlotsWritten, SlotsName, SameArtists, AllDesignate, InTable, Askable, Alone, Patch, Live;
    PutSongsTrack(songs, updates, people, run.indexes, n, less, i);
    var w := Where(songs, updates, people, run.indexes, n, less, i);
    var e := PutSongs(songs, updates, people, run.indexes, n, less).songs[w];
    WrittenNames(songs, updates, SingerSlots(updates), people, run, i, n, e.singers);
    WrittenNames(songs, updates, AuthorSlots(updates), people, run, i, n, e.authors);
    PatchedLive(updates, people, run, i);
  }

  /** When no later song of language below 3 has its code, song i ends up with its own artists. */
  lemma PutSongsLand(
    songs: seq<Entry>, updates: seq<Entry>, people: seq<Artist>, run: AddRun, n: nat, less: Less, i: nat)
    requires i < n <= |updates| && |people| == |run.indexes|
    requires Askable(updates, people) && SongsInTable(updates, |people|)
    requires |run.cat.artists| < NO_ARTIST && AllDesignate(run, people, |people|)
    requires forall j | i < j < n :: updates[j].info.code6 != updates[i].info.code6 || updates[j].info.language >= 3
    ensures
      var put := PutSongs(songs, updates, people, run.indexes, n, less);
      var w := Where(songs, updates, people, run.indexes, n, less, i);
      && w < |put.songs| && EntryNames(updates[i], people, put.songs[w], run.cat.artists)
      && (i in put.added ==> Copied(updates[i], put.songs[w]))
  {
    hide PutSongs, Where, EntryNames, Copied, AllDesignate, InTable, Askable, IsFirst;
    PutSongsLandIff(songs, updates, people, run, n, less, i);
    forall k: nat
      ensures Writer(songs, updates, SingerSlots(updates), i, k, n) == i
      ensures Writer(songs, updates, AuthorSlots(updates), i, k, n) == i
    {
      WriterAlone(songs, updates, SingerSlots(updates), i, k, n);
      WriterAlone(songs, updates, AuthorSlots(updates), i, k, n);
    }
  }

  lemma {:induction false} WriterAlone(
    songs: seq<Entry>, updates: seq<Entry>, wanted: seq<Slots>, i: nat, k: nat, n: nat)
    requires i < n <= |updates| == |wanted|
    requires forall j | i < j < n :: !Overwrites(songs, updates, i, j)
    ensures Writer(songs, updates, wanted, i, k, n) == i
  {
    hide Overwrites;
    if i < n - 1 { WriterAlone(songs, updates, wanted, i, k, n - 1); }
  }

  /** Two songs of one code: the second is found where the first is, and its singer replaces the first's. */
  lemma PutSongsLandCanFail(updates: seq<Entry>, people: seq<Artist>, run: AddRun, less: Less)
    requires |updates| == 2 && updates[0].info.code6 == updates[1].info.code6
    requires updates[0].info.language == 0 && updates[1].info.language == 0
    requires updates[0].singers == [0, NO_ARTIST, NO_ARTIST, NO_ARTIST]
    requires updates[1].singers == [1, NO_ARTIST, NO_ARTIST, NO_ARTIST]
    requires |people| == 2 == |run.indexes| && people[0].name != people[1].name
    requires Askable(updates, people) && |run.cat.artists| < NO_ARTIST && AllDesignate(run, people, 2)
    ensures SongsInTable(updates, 2)
    ensures
      var put := PutSongs([], updates, people, run.indexes, 2, less);
      var w := Where([], updates, people, run.indexes, 2, less, 0);
      w < |put.songs| && !EntryNames(updates[0], people, put.songs[w], run.cat.artists)
  {
    hide PutSongs, Where, EntryNames, AllDesignate;
    AskableInTable(updates, people);
    PutSongsLandIff([], updates, people, run, 2, less, 0);
    SlotsBecomeSecond(updates, people);
  }

  lemma SlotsBecomeSecond(updates: seq<Entry>, people: seq<Artist>)
    requires |updates| == 2 == |people| && updates[0].info.code6 == updates[1].info.code6
    requires updates[0].info.language == 0 && updates[1].info.language == 0
    requires updates[0].singers == [0, NO_ARTIST, NO_ARTIST, NO_ARTIST]
    requires updates[1].singers == [1, NO_ARTIST, NO_ARTIST, NO_ARTIST]
    requires people[0].name != people[1].name && SongsInTable(updates, 2)
    ensures !KeepsArtists([], updates, people, 0, 2)
  {
    var wanted := SingerSlots(updates);
    assert Overwrites([], updates, 0, 1) && Live(wanted[0]) == 1 == Live(wanted[1]);
    assert Writer([], updates, wanted, 0, 0, 2) == 1;
    assert !SameArtists([], updates, wanted, people, 0, 2);
  }

  // ---- against the song loop of a merge

  /** The songs of the request with their slots already rewritten. */
  function PatchedAll(updates: seq<Entry>, artists: seq<Artist>, indexes: seq<U32>): (r: seq<Entry>)
    requires |artists| == |indexes| && SongsInTable(updates, |artists|)
    ensures |r| == |updates|
  {
    seq(|updates|, i requires 0 <= i < |updates| => PatchSong(updates[i], updates[i], artists, indexes))
  }

  lemma PutOneLikeMerge(
    run: PutRun, other: SongRun, i: nat, u: Entry, artists: seq<Artist>, indexes: seq<U32>, less: Less)
    requires run.cursor <= |run.songs|
    requires other.songs == run.songs && other.cursor == run.cursor && other.places == run.places
    requires |artists| == |indexes| && InTable(u.singers, |artists|) && InTable(u.authors, |artists|)
    requires !HasCode6(run.songs, u.info.code6)
    ensures
      var put := PutOne(run, i, u, artists, indexes, less);
      var merged := InsertRound(other, i, PatchSong(u, u, artists, indexes), false, less);
      put.songs == merged.songs && put.cursor == merged.cursor && put.places == merged.places
  {
    hide Patch, InTable, HasCode6, Insert, FindSong, FirstByCode6;
    var index := if u.info.language < 3 then run.cursor else |run.songs|;
    var at := PlaceNew(run.songs, u, index, less);
    InsertAt(run.songs, at, u);
    InsertThenSet(run.songs, at, u, PatchSong(u, u, artists, indexes));
  }

  /** When no song of the request is in the table already, insert_song stores them where
      merge_songInfo would: what is proved of that order and of its positions holds here. */
  lemma {:induction false} AddedLikeMerged(
    songs: seq<Entry>, updates: seq<Entry>, artists: seq<Artist>, indexes: seq<U32>, n: nat, less: Less,
    dropped: seq<bool>)
    requires n <= |updates| == |dropped| && |artists| == |indexes| && SongsInTable(updates, |artists|)
    requires DistinctCodes(updates) && Codes(songs) !! Codes(updates) && forall i | 0 <= i < |dropped| :: !dropped[i]
    ensures
      var put := PutSongs(songs, updates, artists, indexes, n, less);
      var merged := InsertPass(songs, PatchedAll(updates, artists, indexes), dropped, n, less);
      put.songs == merged.songs && put.cursor == merged.cursor && put.places == merged.places
  {
    hide PutOne, InsertRound, InTable, HasCode6, PatchSong, Codes, DistinctCodes;
    if n > 0 {
      AddedLikeMerged(songs, updates, artists, indexes, n - 1, less, dropped);
      var u := updates[n - 1];
      CodesSoFar(songs, updates, artists, indexes, n - 1, less, u.info.code6);
      NotEarlier(updates, n - 1);
      HasCode6InCodes(songs, u.info.code6);
      InCodes(updates, n - 1);
      PutOneLikeMerge(
        PutSongs(songs, updates, artists, indexes, n - 1, less),
        InsertPass(songs, PatchedAll(updates, artists, indexes), dropped, n - 1, less), n - 1, u, artists, indexes,
          less);
    }
  }

  lemma InCodes(songs: seq<Entry>, i: nat)
    requires i < |songs|
    ensures songs[i].info.code6 in Codes(songs)
  {}
}
