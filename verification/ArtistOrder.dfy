/** The artist half of a merge against the song half: the same search, the same resumed cursor. An
    artist is seen here as the song loop would see it, with singerIdx for the code. */
module ArtistOrder {
  import opened Bytes
  import opened Records
  import opened Catalogue
  import opened Conservation
  import opened SortedMerge
  import opened AddArtist

  function View(a: Artist): Entry
  {
    Song(SongInfo(0, 0, 0, a.credits.language, 0, 0, 0, 0, 0, 0, 0, a.singerIdx),
         [NO_ARTIST, NO_ARTIST, NO_ARTIST, NO_ARTIST], [NO_ARTIST, NO_ARTIST, NO_ARTIST, NO_ARTIST], a.name, a.pinyin,
         None)
  }

  function Views(artists: seq<Artist>): (v: seq<Entry>)
    ensures |v| == |artists|
  {
    seq(|artists|, i requires 0 <= i < |artists| => View(artists[i]))
  }

  function NoDrops(n: nat): (d: seq<bool>)
    ensures |d| == n
  {
    seq(n, _ => false)
  }

  lemma {:induction false} SameSearch(artists: seq<Artist>, name: Str, start: nat, less: Less)
    requires start <= |artists|
    ensures FindSong(Views(artists), name, start, less) == FindArtist(artists, name, start, less)
    decreases |artists| - start
  {
    if start < |artists| { SameSearch(artists, name, start + 1, less); }
  }

  lemma SamePlace(artists: seq<Artist>, a: Artist, cursor: nat, less: Less)
    requires cursor <= |artists|
    ensures PlaceSong(Views(artists), View(a), cursor, less) == PlaceArtist(artists, a, cursor, less)
  {
    if cursor < |artists| { SameSearch(artists, a.name, cursor + 1, less); }
  }

  lemma SameHas(artists: seq<Artist>, singerIdx: U32)
    ensures HasCode6(Views(artists), singerIdx) <==> FirstBySinger(artists, singerIdx) < |artists|
  {
    var j := FirstBySinger(artists, singerIdx);
    if j < |artists| { assert Views(artists)[j].info.code6 == singerIdx; }
  }

  lemma SameInsert(artists: seq<Artist>, at: nat, a: Artist)
    requires at <= |artists|
    ensures Views(Insert(artists, at, a)) == Insert(Views(artists), at, View(a))
  {}

  lemma SamePromote(artists: seq<Artist>, j: nat, credits: Credits)
    requires j < |artists| && credits.language == artists[j].credits.language
    ensures Views(artists[j := artists[j].(credits := credits)]) == Views(artists)
  {}

  /** One round of merge_singer_info does to the views what one round of the song loop would do. */
  lemma SameRound(run: ArtistRun, songs: SongRun, n: nat, a: Artist, less: Less)
    requires run.cursor <= |run.cat.artists| && songs.cursor == run.cursor && songs.songs == Views(run.cat.artists)
    ensures
      var r, s := MergeArtist(run, a, less), InsertRound(songs, n, View(a), false, less);
      s.songs == Views(r.cat.artists) && s.cursor == r.cursor
  {
    hide View, Views, Insert, FindArtist, FindSong, HasCode6, PlaceSong, PlaceArtist;
    var artists := run.cat.artists;
    var j := FirstBySinger(artists, a.singerIdx);
    SameHas(artists, a.singerIdx);
    ViewOf(a);
    if j < |artists| {
      SamePromote(artists, j, Promote(artists[j].credits, a.credits));
    } else {
      SamePlace(artists, a, run.cursor, less);
      var at := PlaceArtist(artists, a, run.cursor, less);
      SameInsert(artists, at, a.(credits := Doubled(a.credits)));
      DoubledView(a);
    }
  }

  lemma ViewOf(a: Artist)
    ensures View(a).info.code6 == a.singerIdx && View(a).info.language == a.credits.language && View(a).name == a.name
  {}

  lemma DoubledView(a: Artist)
    ensures View(a.(credits := Doubled(a.credits))) == View(a)
  {}

  lemma {:induction false} SameRuns(cat: Catalogue, updates: seq<Artist>, n: nat, less: Less)
    requires n <= |updates|
    ensures
      var r := MergeArtists(cat, updates, n, less);
      var s := InsertPass(Views(cat.artists), Views(updates), NoDrops(|updates|), n, less);
      s.songs == Views(r.cat.artists) && s.cursor == r.cursor
  {
    hide MergeArtist, InsertRound;
    if n > 0 {
      SameRuns(cat, updates, n - 1, less);
      SameRound(
        MergeArtists(cat, updates, n - 1, less),
        InsertPass(Views(cat.artists), Views(updates), NoDrops(|updates|), n - 1, less),
        n - 1, updates[n - 1], less);
    }
  }

  /** The update artists that the table did not have. */
  function NewArtists(cat: Catalogue, updates: seq<Artist>): seq<Entry>
  {
    Accepted(Views(cat.artists), Views(updates), NoDrops(|updates|), |updates|)
  }

  /** On a sorted table, with the new artists of language below 3 in order: the merged artist table has
      every new artist at its upper bound, and is sorted, exactly when each belongs where the search
      can put it. */
  lemma ArtistsSortedIff(cat: Catalogue, updates: seq<Artist>, less: Less)
    requires TotalPreorder(less) && Sorted(Views(cat.artists), less)
    requires SearchedInOrder(NewArtists(cat, updates), less)
    ensures
      var after := Views(MergeArtists(cat, updates, |updates|, less).cat.artists);
      var table, added := Views(cat.artists), NewArtists(cat, updates);
      && (Sorted(after, less) <==> AllBelong(table, added, less))
      && (after == StableInsert(table, added, less) <==> AllBelong(table, added, less))
      && (Sorted(added, less) ==> (after == StableMerge(table, added, less) <==> AllBelong(table, added, less)))
  {
    hide MergeArtists, InsertPass, Sorted, StableMerge, StableInsert, AllBelong, SearchedInOrder, TotalPreorder, Views;
    SameRuns(cat, updates, |updates|, less);
    InsertPassMergesIff(Views(cat.artists), Views(updates), NoDrops(|updates|), less);
  }

  /** No artist is lost, and each new one is stored once: the old ones are there in their order. */
  lemma ArtistsConserved(cat: Catalogue, updates: seq<Artist>, less: Less)
    ensures Conserved(Views(cat.artists), NewArtists(cat, updates),
      Views(MergeArtists(cat, updates, |updates|, less).cat.artists))
  {
    hide MergeArtists, InsertPass, Conserved, Views;
    SameRuns(cat, updates, |updates|, less);
    InsertPassConserves(Views(cat.artists), Views(updates), NoDrops(|updates|), |updates|, less);
  }

  // ---- the add-song path, which searches from the cursor itself

  ghost predicate NamesSorted(artists: seq<Artist>, less: Less)
  {
    forall i, j | 0 <= i < j < |artists| :: !less(artists[j].name, artists[i].name)
  }

  /** The artists of the request that the table does not have come in order. */
  ghost predicate RequestSorted(artists: seq<Artist>, updates: seq<Artist>, less: Less)
  {
    forall i, j | 0 <= i < j < |updates| && New(artists, updates, i) && New(artists, updates, j) ::
      !less(updates[j].name, updates[i].name)
  }

  /** The cursor is at the start, or at the new artist stored last. */
  ghost predicate AtLastNew(cat: Catalogue, updates: seq<Artist>, n: nat, run: AddRun)
    requires n <= |updates|
  {
    run.cursor == 0 ||
    (run.cursor < |run.cat.artists| &&
     exists k | 0 <= k < n :: New(cat.artists, updates, k) && run.cat.artists[run.cursor].name == updates[k].name)
  }

  lemma InsertInOrder(artists: seq<Artist>, x: Artist, name: Str, start: nat, less: Less)
    requires TotalPreorder(less) && NamesSorted(artists, less) && start <= |artists| && x.name == name
    requires forall i | 0 <= i < start :: !less(name, artists[i].name)
    ensures NamesSorted(Insert(artists, FindArtist(artists, name, start, less), x), less)
  {
    var at := FindArtist(artists, name, start, less);
    forall j | at <= j < |artists|
      ensures !less(artists[j].name, name)
    {
      assert Chains(less, name, artists[at].name, artists[j].name);
    }
  }

  /** Everything before the cursor comes before the new artist. */
  lemma CursorBelow(cat: Catalogue, updates: seq<Artist>, n: nat, run: AddRun, less: Less)
    requires TotalPreorder(less) && n < |updates| && NamesSorted(run.cat.artists, less)
    requires AtLastNew(cat, updates, n, run)
    requires RequestSorted(cat.artists, updates, less) && New(cat.artists, updates, n)
    requires run.cursor <= |run.cat.artists|
    ensures forall i | 0 <= i < run.cursor :: !less(updates[n].name, run.cat.artists[i].name)
  {
    hide New;
    if run.cursor > 0 {
      var k :| 0 <= k < n && New(cat.artists, updates, k) && run.cat.artists[run.cursor].name == updates[k].name;
      forall i | 0 <= i < run.cursor
        ensures !less(updates[n].name, run.cat.artists[i].name)
      {
        assert Chains(less, run.cat.artists[i].name, run.cat.artists[run.cursor].name, updates[n].name);
      }
    }
  }

  lemma AddOneSorted(cat: Catalogue, updates: seq<Artist>, n: nat, run: AddRun, hole: Artist, less: Less)
    requires TotalPreorder(less) && n < |updates| == |run.indexes| && RequestSorted(cat.artists, updates, less)
    requires run.cursor <= |run.cat.artists| && Tracked(cat, updates, n, run)
    requires New(cat.artists, updates, n) ==> |cat.artists| > 0 && updates[n].credits.language < 3
    requires NamesSorted(run.cat.artists, less) && AtLastNew(cat, updates, n, run)
    ensures NamesSorted(AddOne(run, n, updates[n], hole, less).cat.artists, less)
    ensures AtLastNew(cat, updates, n + 1, AddOne(run, n, updates[n], hole, less))
  {
    var artists, a := run.cat.artists, updates[n];
    var next := AddOne(run, n, a, hole, less);
    assert New(cat.artists, updates, n) <==> !HasName(artists, a.name);
    if FirstByName(artists, a.name, 0) < |artists| {
      assert forall i | 0 <= i < |artists| :: next.cat.artists[i].name == artists[i].name;
    } else {
      CursorBelow(cat, updates, n, run, less);
      InsertInOrder(artists, Fresh(a), a.name, run.cursor, less);
      var at := FindArtist(artists, a.name, run.cursor, less);
      assert next.cat.artists[at].name == updates[n].name;
    }
  }

  /** A sorted table stays sorted under a request in order; here entry 0 may be displaced. */
  lemma {:induction false} AddArtistsSorted(
    cat: Catalogue, updates: seq<Artist>, indexes: seq<U32>, n: nat, holes: seq<Artist>, less: Less)
    requires n <= |updates| == |indexes| == |holes| && |cat.artists| + |updates| < NO_ARTIST
    requires TotalPreorder(less) && NamesSorted(cat.artists, less) && RequestSorted(cat.artists, updates, less)
    requires Insertable(cat.artists, updates, n)
    ensures NamesSorted(AddArtists(cat, updates, indexes, n, holes, less).cat.artists, less)
    ensures AtLastNew(cat, updates, n, AddArtists(cat, updates, indexes, n, holes, less))
  {
    hide AddOne, Tracked, New, NamesSorted, RequestSorted, TotalPreorder;
    if n > 0 {
      InsertableInit(cat.artists, updates, n);
      AddArtistsSorted(cat, updates, indexes, n - 1, holes, less);
      AddArtistsTracked(cat, updates, indexes, n - 1, holes, less);
      AddOneSorted(cat, updates, n - 1, AddArtists(cat, updates, indexes, n - 1, holes, less), holes[n - 1], less);
    }
  }
}
