/** The insertion loops as one walk through the table: nothing is asked of the table's order, of the update's, or of
    the comparison. */
module Weave {
  import opened Bytes
  import opened Records
  import opened Catalogue
  import opened References
  import opened Conservation
  import opened SortedMerge
  import opened AddArtist
  import opened AddSong
  import opened ArtistOrder

  /** What becomes of the part of the table not walked over yet: a song of language 3 or above joins its end, any
      other one goes in front of the first song met that sorts behind it, and the walk goes on behind that. */
  function Weave(rest: seq<Entry>, more: seq<Entry>, less: Less): seq<Entry>
    decreases 2 * |more| + |rest|
  {
    if |more| == 0 then rest
    else if more[0].info.language >= 3 then Weave(rest + [more[0]], more[1..], less)
    else if |rest| > 0 && !less(more[0].name, rest[0].name) then [rest[0]] + Weave(rest[1..], more, less)
    else [more[0]] + Weave(rest, more[1..], less)
  }

  /** The walk begins behind entry 0; in an empty table the first song stored is that. */
  function Woven(songs: seq<Entry>, more: seq<Entry>, less: Less): seq<Entry>
  {
    if |songs| > 0 then [songs[0]] + Weave(songs[1..], more, less)
    else if |more| > 0 then [more[0]] + Weave([], more[1..], less)
    else []
  }

  /** The table with the walk standing at the cursor. */
  function Resumed(run: SongRun, more: seq<Entry>, less: Less): seq<Entry>
    requires run.songs != [] ==> run.cursor < |run.songs|
  {
    if run.songs == [] then Woven([], more, less)
    else run.songs[..run.cursor + 1] + Weave(run.songs[run.cursor + 1..], more, less)
  }

  lemma WeaveNone(rest: seq<Entry>, less: Less)
    ensures Weave(rest, [], less) == rest
  {}

  lemma WeaveNext(rest: seq<Entry>, u: Entry, more: seq<Entry>, less: Less)
    requires u.info.language < 3
    ensures Weave(rest, [u] + more, less) ==
      if |rest| > 0 && !less(u.name, rest[0].name) then [rest[0]] + Weave(rest[1..], [u] + more, less)
      else [u] + Weave(rest, more, less)
  {
    assert ([u] + more)[1..] == more;
  }

  /** The walk up to the first song that sorts behind. */
  lemma {:induction false} WeaveSkips(songs: seq<Entry>, from: nat, u: Entry, more: seq<Entry>, less: Less)
    requires from <= |songs| && u.info.language < 3
    ensures
      var at := FindSong(songs, u.name, from, less);
      Weave(songs[from..], [u] + more, less) == songs[from..at] + [u] + Weave(songs[at..], more, less)
    decreases |songs| - from
  {
    hide Weave;
    var rest := songs[from..];
    WeaveNext(rest, u, more, less);
    if from < |songs| && !less(u.name, songs[from].name) {
      WeaveSkips(songs, from + 1, u, more, less);
      var at := FindSong(songs, u.name, from, less);
      assert rest[0] == songs[from] && rest[1..] == songs[from + 1..];
      assert songs[from..at] == [songs[from]] + songs[from + 1..at];
    } else {
      assert |rest| > 0 ==> rest[0] == songs[from];
      assert songs[from..from] == [];
    }
  }

  lemma ResumedStep(run: SongRun, n: nat, u: Entry, more: seq<Entry>, less: Less)
    requires run.songs != [] ==> run.cursor < |run.songs|
    requires run.cursor <= |run.songs| && !HasCode6(run.songs, u.info.code6)
    ensures
      var next := InsertRound(run, n, u, false, less);
      next.cursor < |next.songs| && Resumed(run, [u] + more, less) == Resumed(next, more, less)
  {
    hide HasCode6, Weave, FindSong, InsertRound, PlaceSong, Resumed;
    var next := InsertRound(run, n, u, false, less);
    RoundStores(run, n, u, less);
    if run.songs == [] {
      FirstStored(run, next, u, more, less);
    } else if u.info.language >= 3 {
      LateStored(run, next, u, more, less);
    } else {
      SearchedStored(run, next, u, more, less);
    }
  }

  lemma RoundStores(run: SongRun, n: nat, u: Entry, less: Less)
    requires run.cursor <= |run.songs| && !HasCode6(run.songs, u.info.code6)
    ensures
      var at, next := PlaceSong(run.songs, u, run.cursor, less), InsertRound(run, n, u, false, less);
      && next.songs == run.songs[..at] + [u] + run.songs[at..]
      && next.cursor == if u.info.language < 3 then at else run.cursor
    ensures
      PlaceSong(run.songs, u, run.cursor, less)
      == if u.info.language >= 3 || run.songs == [] || run.cursor == |run.songs| then |run.songs|
         else FindSong(run.songs, u.name, run.cursor + 1, less)
  {
    hide HasCode6, FindSong, Insert;
    InsertSplits(run.songs, PlaceSong(run.songs, u, run.cursor, less), u);
  }

  lemma FirstStored(run: SongRun, next: SongRun, u: Entry, more: seq<Entry>, less: Less)
    requires run.songs == [] && run.cursor == 0 == next.cursor && next.songs == run.songs[..0] + [u] + run.songs[0..]
    ensures Resumed(run, [u] + more, less) == Resumed(next, more, less)
  {
    hide Weave;
    assert ([u] + more)[1..] == more && next.songs == [u] && [u][1..] == [] && [u][..1] == [u];
  }

  lemma LateStored(run: SongRun, next: SongRun, u: Entry, more: seq<Entry>, less: Less)
    requires run.cursor == next.cursor < |run.songs| && u.info.language >= 3
    requires next.songs == run.songs[..|run.songs|] + [u] + run.songs[|run.songs|..]
    ensures Resumed(run, [u] + more, less) == Resumed(next, more, less)
  {
    hide Weave;
    var c := run.cursor;
    assert next.songs[..c + 1] == run.songs[..c + 1] && next.songs[c + 1..] == run.songs[c + 1..] + [u];
    WeaveLate(run.songs[c + 1..], u, more, less);
  }

  lemma SearchedStored(run: SongRun, next: SongRun, u: Entry, more: seq<Entry>, less: Less)
    requires run.cursor < |run.songs| && u.info.language < 3
    requires next.cursor == FindSong(run.songs, u.name, run.cursor + 1, less)
    requires next.songs == run.songs[..next.cursor] + [u] + run.songs[next.cursor..]
    ensures Resumed(run, [u] + more, less) == Resumed(next, more, less)
  {
    hide Weave, FindSong;
    var c, at := run.cursor, next.cursor;
    WeaveSkips(run.songs, c + 1, u, more, less);
    assert next.songs[..at + 1] == run.songs[..c + 1] + (run.songs[c + 1..at] + [u]);
    assert next.songs[at + 1..] == run.songs[at..];
  }

  lemma InsertSplits<T>(s: seq<T>, at: nat, x: T)
    requires at <= |s|
    ensures Insert(s, at, x) == s[..at] + [x] + s[at..]
  {}

  lemma WeaveLate(rest: seq<Entry>, u: Entry, more: seq<Entry>, less: Less)
    requires u.info.language >= 3
    ensures Weave(rest, [u] + more, less) == Weave(rest + [u], more, less)
  {
    assert ([u] + more)[1..] == more;
  }

  lemma {:induction false} PassResumes(
    songs: seq<Entry>, updates: seq<Entry>, dropped: seq<bool>, n: nat, more: seq<Entry>, less: Less)
    requires n <= |updates| == |dropped|
    ensures
      var run := InsertPass(songs, updates, dropped, n, less);
      && (run.songs != [] ==> run.cursor < |run.songs|)
      && Woven(songs, Accepted(songs, updates, dropped, n) + more, less) == Resumed(run, more, less)
  {
    hide Weave, Woven, Resumed, HasCode6, InsertRound;
    if n == 0 {
      NothingResumed(songs, more, less);
    } else {
      var run, u := InsertPass(songs, updates, dropped, n - 1, less), updates[n - 1];
      var accepted := Accepted(songs, updates, dropped, n - 1);
      InsertPassHas(songs, updates, dropped, n - 1, less, u.info.code6);
      if dropped[n - 1] || HasCode6(run.songs, u.info.code6) {
        PassResumes(songs, updates, dropped, n - 1, more, less);
        RoundSkips(run, n - 1, u, dropped[n - 1], less);
      } else {
        PassResumes(songs, updates, dropped, n - 1, [u] + more, less);
        ResumedStep(run, n - 1, u, more, less);
        assert accepted + [u] + more == accepted + ([u] + more);
      }
    }
  }

  lemma RoundSkips(run: SongRun, n: nat, u: Entry, drop: bool, less: Less)
    requires run.cursor <= |run.songs| && (drop || HasCode6(run.songs, u.info.code6))
    ensures InsertRound(run, n, u, drop, less) == run
  {}

  lemma NothingResumed(songs: seq<Entry>, more: seq<Entry>, less: Less)
    ensures Woven(songs, [] + more, less) == Resumed(SongRun(songs, 0, map[]), more, less)
  {
    hide Weave;
    assert [] + more == more;
    if songs != [] { assert songs[..1] == [songs[0]]; }
  }

  /** The insertion loop of merge_songInfo, for any table, any update and any comparison, is one walk through the
      table with the accepted songs. */
  lemma InsertPassWeaves(songs: seq<Entry>, updates: seq<Entry>, dropped: seq<bool>, less: Less)
    requires |updates| == |dropped|
    ensures InsertPass(songs, updates, dropped, |updates|, less).songs
      == Woven(songs, Accepted(songs, updates, dropped, |updates|), less)
  {
    hide Weave, InsertPass, Accepted;
    var run, accepted := InsertPass(songs, updates, dropped, |updates|, less),
      Accepted(songs, updates, dropped, |updates|);
    PassResumes(songs, updates, dropped, |updates|, [], less);
    assert accepted + [] == accepted;
    if run.songs != [] {
      WeaveNone(run.songs[run.cursor + 1..], less);
      assert run.songs[..run.cursor + 1] + run.songs[run.cursor + 1..] == run.songs;
    }
  }

  /** Without songs of language 3 and above, the walk is the textbook merge, in whatever order the songs come. */
  lemma {:induction false} WeaveIsMerge(rest: seq<Entry>, more: seq<Entry>, less: Less)
    requires forall k | 0 <= k < |more| :: more[k].info.language < 3
    ensures Weave(rest, more, less) == StableMerge(rest, more, less)
    decreases 2 * |more| + |rest|
  {
    if |more| == 0 {
    } else if |rest| > 0 && !less(more[0].name, rest[0].name) {
      WeaveIsMerge(rest[1..], more, less);
    } else {
      WeaveIsMerge(rest, more[1..], less);
      if |rest| == 0 { assert more == [more[0]] + more[1..]; }
    }
  }

  /** So is the loop of merge_singer_info, on the artists the table does not have. */
  lemma ArtistsWoven(cat: Catalogue, updates: seq<Artist>, less: Less)
    ensures Views(MergeArtists(cat, updates, |updates|, less).cat.artists)
      == Woven(Views(cat.artists), NewArtists(cat, updates), less)
  {
    hide Weave, MergeArtists, InsertPass, Views, Woven;
    SameRuns(cat, updates, |updates|, less);
    InsertPassWeaves(Views(cat.artists), Views(updates), NoDrops(|updates|), less);
  }

  /** The whole merge: the songs not deleted, slots moved along, and the accepted songs of the update, slots
      re-pointed, in one walk. */
  lemma MergeWeaves(cat: Catalogue, update: Catalogue, dropped: seq<bool>, less: Less)
    returns (moved: seq<Entry>, stored: seq<Entry>)
    requires Mergeable(cat, update, dropped)
    ensures UpdateReadable(update)
    ensures
      var after := Merge(cat, update, dropped, less);
      var kept := DeletePass(cat.songs, update.songs, dropped, |update.songs|);
      && Pairwise(kept, moved, Following(cat.artists, after.artists))
      && Pairwise(Accepted(kept, update.songs, dropped, |update.songs|), stored,
                  Linking(update.artists, after.artists))
      && after.songs == Woven(moved, stored, less)
  {
    hide Weave, Woven, InsertPass, DeletePass, Accepted, MergeArtists, RelinkAll, Pairwise;
    SongHalf(cat, update, dropped, less);
    var n, mid := |update.songs|, MergeArtists(cat, update.artists, |update.artists|, less).cat;
    var linked := RelinkAll(update.songs, update.artists, mid.artists);
    moved := DeletePass(mid.songs, update.songs, dropped, n);
    stored := Accepted(moved, linked, dropped, n);
    InsertPassWeaves(moved, linked, dropped, less);
  }

  // ---- the add-song path's artists, whose search begins at the cursor itself

  function Names(artists: seq<Artist>): (r: seq<Str>)
    ensures |r| == |artists|
  {
    seq(|artists|, i requires 0 <= i < |artists| => artists[i].name)
  }

  /** A name goes in front of the first one met that sorts behind it, and is the first met by the next. */
  function WeaveNames(rest: seq<Str>, more: seq<Str>, less: Less): seq<Str>
    decreases 2 * |more| + |rest|
  {
    if |more| == 0 then rest
    else if |rest| > 0 && !less(more[0], rest[0]) then [rest[0]] + WeaveNames(rest[1..], more, less)
    else WeaveNames([more[0]] + rest, more[1..], less)
  }

  /** The names of the request that are neither in the table nor earlier in the request. */
  ghost function NewNames(artists: seq<Artist>, updates: seq<Artist>, n: nat): seq<Str>
    requires n <= |updates|
  {
    if n == 0 then []
    else NewNames(artists, updates, n - 1) + if New(artists, updates, n - 1) then [updates[n - 1].name] else []
  }

  function ResumedNames(run: AddRun, more: seq<Str>, less: Less): seq<Str>
    requires run.cursor <= |run.cat.artists|
  {
    Names(run.cat.artists)[..run.cursor] + WeaveNames(Names(run.cat.artists)[run.cursor..], more, less)
  }

  lemma NamesNext(rest: seq<Str>, name: Str, more: seq<Str>, less: Less)
    ensures WeaveNames(rest, [name] + more, less) ==
      if |rest| > 0 && !less(name, rest[0]) then [rest[0]] + WeaveNames(rest[1..], [name] + more, less)
      else WeaveNames([name] + rest, more, less)
  {
    assert ([name] + more)[1..] == more;
  }

  lemma {:induction false} NamesSkip(artists: seq<Artist>, from: nat, name: Str, more: seq<Str>, less: Less)
    requires from < |artists|
    ensures
      var at, names := FindArtist(artists, name, from, less), Names(artists);
      WeaveNames(names[from..], [name] + more, less)
      == names[from..at] + WeaveNames([name] + names[at..], more, less)
    decreases |artists| - from
  {
    hide WeaveNames, Names;
    var names := Names(artists);
    var at := FindArtist(artists, name, from, less);
    NamesNext(names[from..], name, more, less);
    NameAt(artists, from);
    if !less(name, artists[from].name) {
      if from + 1 < |artists| {
        NamesSkip(artists, from + 1, name, more, less);
      } else {
        NamesNext(names[from + 1..], name, more, less);
      }
      SliceHead(names, from, at);
      assert ([names[from]] + names[from + 1..at]) + WeaveNames([name] + names[at..], more, less)
        == [names[from]] + (names[from + 1..at] + WeaveNames([name] + names[at..], more, less));
    } else {
      assert names[from..from] == [];
    }
  }

  lemma NameAt(artists: seq<Artist>, k: nat)
    requires k < |artists|
    ensures Names(artists)[k] == artists[k].name
    ensures Names(artists)[k..][0] == artists[k].name && Names(artists)[k..][1..] == Names(artists)[k + 1..]
  {}

  lemma SliceHead<T>(s: seq<T>, from: nat, at: nat)
    requires from < at <= |s|
    ensures s[from..at] == [s[from]] + s[from + 1..at]
  {}

  lemma InsertedName(artists: seq<Artist>, at: nat, x: Artist)
    requires at <= |artists|
    ensures Names(Insert(artists, at, x)) == Names(artists)[..at] + ([x.name] + Names(artists)[at..])
  {}

  lemma NamesStep(run: AddRun, i: nat, a: Artist, hole: Artist, more: seq<Str>, less: Less)
    requires run.cursor < |run.cat.artists| && i < |run.indexes|
    requires HasName(run.cat.artists, a.name) || a.credits.language < 3
    ensures
      var next := AddOne(run, i, a, hole, less);
      next.cursor < |next.cat.artists|
      && ResumedNames(next, more, less)
         == ResumedNames(run, if HasName(run.cat.artists, a.name) then more else [a.name] + more, less)
  {
    hide WeaveNames, HasName, Insert, Promote, Bump, ShiftSongs;
    var artists, c := run.cat.artists, run.cursor;
    NamedIff(artists, a.name);
    var j := FirstByName(artists, a.name, 0);
    if j < |artists| {
      var found := artists[j].(credits := Promote(artists[j].credits, a.credits));
      assert Names(artists[j := found]) == Names(artists);
    } else {
      var names, at := Names(artists), FindArtist(artists, a.name, c, less);
      NamesSkip(artists, c, a.name, more, less);
      InsertedName(artists, at, Fresh(a));
      InsertedSize(artists, at, Fresh(a));
      var after := Names(Insert(artists, at, Fresh(a)));
      assert after[..at] == names[..at] && after[at..] == [a.name] + names[at..];
      assert names[..at] == names[..c] + names[c..at];
    }
  }

  lemma InsertedSize<T>(s: seq<T>, at: nat, x: T)
    requires at <= |s|
    ensures |Insert(s, at, x)| == |s| + 1
  {}

  lemma {:induction false} NamesResume(
    cat: Catalogue, updates: seq<Artist>, indexes: seq<U32>, n: nat, holes: seq<Artist>, more: seq<Str>, less: Less)
    requires n <= |updates| == |indexes| == |holes| && |cat.artists| > 0
    requires |cat.artists| + |updates| < NO_ARTIST && Insertable(cat.artists, updates, n)
    ensures
      var run := AddArtists(cat, updates, indexes, n, holes, less);
      && run.cursor < |run.cat.artists|
      && ResumedNames(run, more, less)
         == WeaveNames(Names(cat.artists), NewNames(cat.artists, updates, n) + more, less)
  {
    hide WeaveNames, AddOne, HasName, New, Tracked;
    if n == 0 {
      NoNames(cat, indexes, more, less);
    } else {
      var run, a := AddArtists(cat, updates, indexes, n - 1, holes, less), updates[n - 1];
      var before := NewNames(cat.artists, updates, n - 1);
      InsertableInit(cat.artists, updates, n);
      AddArtistsTracked(cat, updates, indexes, n - 1, holes, less);
      AddArtistsGrows(cat, updates, indexes, n - 1, holes, less);
      TrackedNames(cat, updates, n - 1, run);
      NewIsSearched(cat.artists, updates, n);
      if New(cat.artists, updates, n - 1) {
        NamesResume(cat, updates, indexes, n - 1, holes, [a.name] + more, less);
        assert before + ([a.name] + more) == before + [a.name] + more;
      } else {
        NamesResume(cat, updates, indexes, n - 1, holes, more, less);
        assert before + [] == before;
      }
      NamesStep(run, n - 1, a, holes[n - 1], more, less);
    }
  }

  lemma NewIsSearched(artists: seq<Artist>, updates: seq<Artist>, n: nat)
    requires 0 < n <= |updates| && Insertable(artists, updates, n)
    ensures New(artists, updates, n - 1) ==> updates[n - 1].credits.language < 3
  {}

  lemma NoNames(cat: Catalogue, indexes: seq<U32>, more: seq<Str>, less: Less)
    ensures ResumedNames(AddRun(cat, 0, indexes), more, less) == WeaveNames(Names(cat.artists), [] + more, less)
  {
    hide WeaveNames;
    assert [] + more == more && Names(cat.artists)[0..] == Names(cat.artists);
  }

  /** insert_artist, while no new artist goes to the end of the table: one walk through the names of the table with the
      new names of the request. */
  lemma AddArtistsWeave(
    cat: Catalogue, updates: seq<Artist>, indexes: seq<U32>, n: nat, holes: seq<Artist>, less: Less)
    requires n <= |updates| == |indexes| == |holes| && |cat.artists| > 0
    requires |cat.artists| + |updates| < NO_ARTIST && Insertable(cat.artists, updates, n)
    ensures Names(AddArtists(cat, updates, indexes, n, holes, less).cat.artists)
      == WeaveNames(Names(cat.artists), NewNames(cat.artists, updates, n), less)
  {
    hide WeaveNames, AddArtists, NewNames, Insertable, ResumedNames, Names;
    NamesResume(cat, updates, indexes, n, holes, [], less);
    AppendNothing(NewNames(cat.artists, updates, n));
    NothingLeft(AddArtists(cat, updates, indexes, n, holes, less), less);
  }

  lemma AppendNothing<T>(s: seq<T>)
    ensures s + [] == s
  {}

  lemma NothingLeft(run: AddRun, less: Less)
    requires run.cursor <= |run.cat.artists|
    ensures ResumedNames(run, [], less) == Names(run.cat.artists)
  {
    hide WeaveNames, Names;
    var names := Names(run.cat.artists);
    NoneWoven(names[run.cursor..], less);
    assert names[..run.cursor] + names[run.cursor..] == names;
  }

  lemma NoneWoven(rest: seq<Str>, less: Less)
    ensures WeaveNames(rest, [], less) == rest
  {}
}
