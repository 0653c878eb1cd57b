/** The add-song path's first half (insert_artist): artists given by name are looked up in the table or
    inserted into it, and each remembers where it went while later insertions move it along. */
module AddArtist {
  import opened Bytes
  import opened Records
  import opened Catalogue
  import opened References

  /** First record with this name, or the length of the table. */
  function FirstByName(artists: seq<Artist>, name: Str, start: nat): (j: nat)
    requires start <= |artists|
    ensures start <= j <= |artists|
    ensures forall i | start <= i < j :: artists[i].name != name
    ensures j < |artists| ==> artists[j].name == name
    decreases |artists| - start
  {
    if start == |artists| || artists[start].name == name then start
    else FirstByName(artists, name, start + 1)
  }

  function Moved(index: U32, at: nat): U32 { if index >= at then Wrap32(index + 1) else index }

  /** insertIndex of every artist of the request, processed or not, after an insertion at `at`. */
  function Bump(indexes: seq<U32>, at: nat): seq<U32>
  {
    seq(|indexes|, j requires 0 <= j < |indexes| => Moved(indexes[j], at))
  }

  /** What do_insert_artist_info stores. */
  function Fresh(a: Artist): Artist { a.(credits := Doubled(a.credits), singerIdx := 0) }

  datatype AddRun = AddRun(cat: Catalogue, cursor: nat, indexes: seq<U32>)

  /** The position do_insert_artist_info is given for artist a. */
  function AskedIndex(run: AddRun, a: Artist): nat
  {
    if a.credits.language < 3 then run.cursor else |run.cat.artists|
  }

  /** One round of insert_artist, for the i-th artist of the request. Asked for a position at the
      end of the table, do_insert_artist_info writes the record one place further: the table then
      ends with whatever the array held there before, called hole. */
  function AddOne(run: AddRun, i: nat, a: Artist, hole: Artist, less: Less): (r: AddRun)
    requires run.cursor <= |run.cat.artists| && i < |run.indexes|
    ensures r.cursor <= |r.cat.artists| && |r.indexes| == |run.indexes|
  {
    var artists := run.cat.artists;
    var j := FirstByName(artists, a.name, 0);
    if j < |artists| then
      var found := artists[j].(credits := Promote(artists[j].credits, a.credits));
      run.(cat := run.cat.(artists := artists[j := found]), indexes := run.indexes[i := Wrap32(j)])
    else
      var index := AskedIndex(run, a);
      var at := if index >= |artists| then index + 1 else FindArtist(artists, a.name, index, less);
      AddRun(
        Catalogue(if index >= |artists| then artists + [hole] else Insert(artists, at, Fresh(a)),
                  ShiftSongs(run.cat.songs, at)),
        if a.credits.language < 3 then at else run.cursor,
        Bump(run.indexes, at)[i := Wrap32(at)])
  }

  /** insert_artist after the first n artists of the request. */
  function AddArtists(
    cat: Catalogue, updates: seq<Artist>, indexes: seq<U32>, n: nat, holes: seq<Artist>, less: Less): (r: AddRun)
    requires n <= |updates| == |indexes| == |holes|
    ensures r.cursor <= |r.cat.artists| && |r.indexes| == |indexes|
  {
    if n == 0 then AddRun(cat, 0, indexes)
    else AddOne(AddArtists(cat, updates, indexes, n - 1, holes, less), n - 1, updates[n - 1], holes[n - 1], less)
  }

  ghost predicate HasName(artists: seq<Artist>, name: Str)
  {
    exists j | 0 <= j < |artists| :: artists[j].name == name
  }

  /** The i-th artist of the request is nowhere in the table nor earlier in the request. */
  ghost predicate New(artists: seq<Artist>, updates: seq<Artist>, i: nat)
    requires i < |updates|
  {
    !HasName(artists, updates[i].name) && !HasName(updates[..i], updates[i].name)
  }

  /** Every new artist among the first n will be put in front of something. */
  ghost predicate Insertable(artists: seq<Artist>, updates: seq<Artist>, n: nat)
    requires n <= |updates|
  {
    forall i | 0 <= i < n && New(artists, updates, i) :: |artists| > 0 && updates[i].credits.language < 3
  }

  /** insertIndex i leads to the record bearing artist i's name, with the roles it asks for. */
  ghost predicate Designates(run: AddRun, updates: seq<Artist>, i: nat)
    requires |run.indexes| == |updates|
  {
    && i < |updates| && run.indexes[i] < |run.cat.artists|
    && var found := run.cat.artists[run.indexes[i]];
       found.name == updates[i].name
       && (updates[i].credits.isSinger ==> found.credits.isSinger)
       && (updates[i].credits.isAuthor ==> found.credits.isAuthor)
  }

  ghost predicate AllDesignate(run: AddRun, updates: seq<Artist>, n: nat)
    requires n <= |updates| == |run.indexes|
  {
    forall i | 0 <= i < n :: Designates(run, updates, i)
  }

  // ---- when no new artist goes to the end

  /** The state after n rounds without an insertion at the end of the table. */
  ghost predicate Tracked(cat: Catalogue, updates: seq<Artist>, n: nat, run: AddRun)
    requires n <= |updates| == |run.indexes|
  {
    && (|cat.artists| > 0 ==> run.cursor < |run.cat.artists|)
    && (forall name :: HasName(run.cat.artists, name) <==> HasName(cat.artists, name) || HasName(updates[..n], name))
    && AllDesignate(run, updates, n)
  }

  lemma AddedNames(run: AddRun, i: nat, a: Artist, hole: Artist, less: Less, name: Str)
    requires run.cursor <= |run.cat.artists| && i < |run.indexes|
    requires HasName(run.cat.artists, a.name) || AskedIndex(run, a) < |run.cat.artists|
    ensures HasName(AddOne(run, i, a, hole, less).cat.artists, name)
       <==> HasName(run.cat.artists, name) || name == a.name
  {
    hide HasName, Insert, ShiftSongs, Bump, Promote;
    var artists := run.cat.artists;
    var j := FirstByName(artists, a.name, 0);
    NamedIff(artists, a.name);
    if j < |artists| {
      SameNames(artists, AddOne(run, i, a, hole, less).cat.artists, name);
    } else {
      InsertedNames(artists, FindArtist(artists, a.name, AskedIndex(run, a), less), Fresh(a), name);
    }
  }

  lemma NamedIff(artists: seq<Artist>, name: Str)
    ensures FirstByName(artists, name, 0) < |artists| <==> HasName(artists, name)
  {}

  lemma SameNames(artists: seq<Artist>, after: seq<Artist>, name: Str)
    requires |after| == |artists| && forall k | 0 <= k < |artists| :: after[k].name == artists[k].name
    ensures HasName(after, name) <==> HasName(artists, name)
  {}

  lemma InsertedNames(artists: seq<Artist>, at: nat, a: Artist, name: Str)
    requires at <= |artists|
    ensures HasName(Insert(artists, at, a), name) <==> HasName(artists, name) || name == a.name
  {
    var after := Insert(artists, at, a);
    assert after[at].name == a.name;
    assert forall k | 0 <= k < |artists| :: after[if k < at then k else k + 1] == artists[k];
  }

  /** Artist k of the request is designated after artist i was found at j. */
  lemma FoundDesignates(run: AddRun, updates: seq<Artist>, i: nat, j: nat, k: nat)
    requires |run.indexes| == |updates| && |run.cat.artists| < 0xFFFF_FFFF
    requires i < |updates| && j < |run.cat.artists| && run.cat.artists[j].name == updates[i].name
    requires k < |updates| && (k == i || Designates(run, updates, k))
    ensures
      var found := run.cat.artists[j].(credits := Promote(run.cat.artists[j].credits, updates[i].credits));
      Designates(run.(cat := run.cat.(artists := run.cat.artists[j := found]), indexes := run.indexes[i := Wrap32(j)]),
        updates, k)
  {}

  /** ... and after it was inserted at `at`. */
  lemma InsertedDesignates(run: AddRun, updates: seq<Artist>, i: nat, at: nat, songs: seq<Entry>, cursor: nat, k: nat)
    requires |run.indexes| == |updates| && |run.cat.artists| < 0xFFFF_FFFF
    requires i < |updates| && at <= |run.cat.artists|
    requires k < |updates| && (k == i || Designates(run, updates, k))
    ensures
      Designates(AddRun(Catalogue(Insert(run.cat.artists, at, Fresh(updates[i])), songs), cursor,
                        Bump(run.indexes, at)[i := Wrap32(at)]), updates, k)
  {}

  lemma StillDesignates(run: AddRun, updates: seq<Artist>, i: nat, hole: Artist, less: Less, k: nat)
    requires |run.indexes| == |updates| && |run.cat.artists| < 0xFFFF_FFFF
    requires run.cursor <= |run.cat.artists| && i < |updates|
    requires HasName(run.cat.artists, updates[i].name) || AskedIndex(run, updates[i]) < |run.cat.artists|
    requires k < |updates| && (k == i || Designates(run, updates, k))
    ensures Designates(AddOne(run, i, updates[i], hole, less), updates, k)
  {
    hide Designates, Insert, Bump, Promote, ShiftSongs;
    var artists, a := run.cat.artists, updates[i];
    var j := FirstByName(artists, a.name, 0);
    if j < |artists| {
      FoundDesignates(run, updates, i, j, k);
    } else {
      var at := FindArtist(artists, a.name, AskedIndex(run, a), less);
      InsertedDesignates(run, updates, i, at, ShiftSongs(run.cat.songs, at),
        if a.credits.language < 3 then at else run.cursor, k);
    }
  }

  lemma TrackedStep(cat: Catalogue, updates: seq<Artist>, n: nat, run: AddRun, hole: Artist, less: Less)
    requires n < |updates| == |run.indexes| && |run.cat.artists| < 0xFFFF_FFFF
    requires run.cursor <= |run.cat.artists| && Tracked(cat, updates, n, run)
    requires New(cat.artists, updates, n) ==> |cat.artists| > 0 && updates[n].credits.language < 3
    ensures Tracked(cat, updates, n + 1, AddOne(run, n, updates[n], hole, less))
    ensures HasName(run.cat.artists, updates[n].name) || AskedIndex(run, updates[n]) < |run.cat.artists|
  {
    var next := AddOne(run, n, updates[n], hole, less);
    assert HasName(run.cat.artists, updates[n].name) || AskedIndex(run, updates[n]) < |run.cat.artists|;
    assert updates[..n + 1] == updates[..n] + [updates[n]];
    forall name
      ensures HasName(next.cat.artists, name) <==> HasName(cat.artists, name) || HasName(updates[..n + 1], name)
    {
      AddedNames(run, n, updates[n], hole, less, name);
      if HasName(updates[..n], name) {
        var j :| 0 <= j < n && updates[j].name == name;
        assert updates[..n + 1][j].name == name;
      }
      assert updates[..n + 1][n] == updates[n];
    }
    forall k | 0 <= k < n + 1
      ensures Designates(next, updates, k)
    {
      StillDesignates(run, updates, n, hole, less, k);
    }
  }

  lemma AddOneGrows(run: AddRun, i: nat, a: Artist, hole: Artist, less: Less)
    requires run.cursor <= |run.cat.artists| && i < |run.indexes|
    ensures |run.cat.artists| <= |AddOne(run, i, a, hole, less).cat.artists| <= |run.cat.artists| + 1
  {}

  lemma {:induction false} AddArtistsGrows(
    cat: Catalogue, updates: seq<Artist>, indexes: seq<U32>, n: nat, holes: seq<Artist>, less: Less)
    requires n <= |updates| == |indexes| == |holes|
    ensures |cat.artists| <= |AddArtists(cat, updates, indexes, n, holes, less).cat.artists| <= |cat.artists| + n
  {
    if n > 0 {
      AddArtistsGrows(cat, updates, indexes, n - 1, holes, less);
      AddOneGrows(AddArtists(cat, updates, indexes, n - 1, holes, less), n - 1, updates[n - 1], holes[n - 1], less);
    }
  }

  lemma InsertableInit(artists: seq<Artist>, updates: seq<Artist>, n: nat)
    requires 0 < n <= |updates| && Insertable(artists, updates, n)
    ensures Insertable(artists, updates, n - 1)
  {}

  lemma {:induction false} AddArtistsTracked(
    cat: Catalogue, updates: seq<Artist>, indexes: seq<U32>, n: nat, holes: seq<Artist>, less: Less)
    requires n <= |updates| == |indexes| == |holes| && |cat.artists| + |updates| < NO_ARTIST
    requires Insertable(cat.artists, updates, n)
    ensures Tracked(cat, updates, n, AddArtists(cat, updates, indexes, n, holes, less))
  {
    hide New, HasName, Tracked;
    if n == 0 {
      TrackedAtStart(cat, updates, indexes);
    } else {
      var run := AddArtists(cat, updates, indexes, n - 1, holes, less);
      InsertableInit(cat.artists, updates, n);
      AddArtistsTracked(cat, updates, indexes, n - 1, holes, less);
      AddArtistsGrows(cat, updates, indexes, n - 1, holes, less);
      TrackedStep(cat, updates, n - 1, run, holes[n - 1], less);
    }
  }

  lemma TrackedAtStart(cat: Catalogue, updates: seq<Artist>, indexes: seq<U32>)
    requires |updates| == |indexes|
    ensures Tracked(cat, updates, 0, AddRun(cat, 0, indexes))
  {
    assert updates[..0] == [];
  }

  lemma TrackedDesignates(cat: Catalogue, updates: seq<Artist>, run: AddRun)
    requires |updates| == |run.indexes| && Tracked(cat, updates, |updates|, run)
    ensures AllDesignate(run, updates, |updates|)
  {}

  // ---- the numbers later merges find artists by

  ghost predicate AnyNew(artists: seq<Artist>, updates: seq<Artist>, n: nat)
    requires n <= |updates|
  {
    exists i | 0 <= i < n :: New(artists, updates, i)
  }

  ghost predicate OneNew(artists: seq<Artist>, updates: seq<Artist>, n: nat)
    requires n <= |updates|
  {
    forall i, j | 0 <= i < j < n :: !(New(artists, updates, i) && New(artists, updates, j))
  }

  lemma NewStep(artists: seq<Artist>, updates: seq<Artist>, n: nat)
    requires n < |updates|
    ensures AnyNew(artists, updates, n + 1) <==> AnyNew(artists, updates, n) || New(artists, updates, n)
    ensures OneNew(artists, updates, n + 1)
       <==> OneNew(artists, updates, n) && !(AnyNew(artists, updates, n) && New(artists, updates, n))
  {
    hide New;
  }

  lemma InsertedSingers(artists: seq<Artist>, at: nat, a: Artist)
    requires at <= |artists|
    ensures DistinctSingers(Insert(artists, at, a)) <==> DistinctSingers(artists) && !HasSinger(artists, a.singerIdx)
    ensures forall x :: HasSinger(Insert(artists, at, a), x) <==> HasSinger(artists, x) || x == a.singerIdx
  {
    var after := Insert(artists, at, a);
    assert after[at] == a;
    assert forall k | 0 <= k < |artists| :: after[if k < at then k else k + 1] == artists[k];
    forall x
      ensures HasSinger(after, x) <==> HasSinger(artists, x) || x == a.singerIdx
    {}
  }

  lemma SameSingers(a: seq<Artist>, b: seq<Artist>)
    requires |a| == |b| && forall k | 0 <= k < |a| :: a[k].singerIdx == b[k].singerIdx
    ensures DistinctSingers(a) <==> DistinctSingers(b)
    ensures forall x :: HasSinger(a, x) <==> HasSinger(b, x)
  {}

  lemma AddedSingers(run: AddRun, i: nat, a: Artist, hole: Artist, less: Less)
    requires run.cursor <= |run.cat.artists| && i < |run.indexes|
    requires HasName(run.cat.artists, a.name) || AskedIndex(run, a) < |run.cat.artists|
    ensures
      var artists, after := run.cat.artists, AddOne(run, i, a, hole, less).cat.artists;
      if HasName(artists, a.name) then
        && (DistinctSingers(after) <==> DistinctSingers(artists))
        && forall x :: HasSinger(after, x) <==> HasSinger(artists, x)
      else
        && (DistinctSingers(after) <==> DistinctSingers(artists) && !HasSinger(artists, 0))
        && forall x :: HasSinger(after, x) <==> HasSinger(artists, x) || x == 0
  {
    hide DistinctSingers, HasSinger, Insert, ShiftSongs, Bump;
    var artists := run.cat.artists;
    if FirstByName(artists, a.name, 0) < |artists| {
      SameSingers(artists, AddOne(run, i, a, hole, less).cat.artists);
    } else {
      InsertedSingers(artists, FindArtist(artists, a.name, AskedIndex(run, a), less), Fresh(a));
    }
  }

  lemma {:induction false} SingersAfter(
    cat: Catalogue, updates: seq<Artist>, indexes: seq<U32>, n: nat, holes: seq<Artist>, less: Less)
    requires n <= |updates| == |indexes| == |holes| && |cat.artists| + |updates| < NO_ARTIST
    requires Insertable(cat.artists, updates, n)
    ensures
      var artists := AddArtists(cat, updates, indexes, n, holes, less).cat.artists;
      && (HasSinger(artists, 0) <==> HasSinger(cat.artists, 0) || AnyNew(cat.artists, updates, n))
      && (DistinctSingers(artists) <==>
          DistinctSingers(cat.artists) && OneNew(cat.artists, updates, n)
          && !(AnyNew(cat.artists, updates, n) && HasSinger(cat.artists, 0)))
  {
    hide Tracked, HasSinger, DistinctSingers, AddOne, HasName, AnyNew, OneNew;
    if n == 0 {
      NobodyNew(cat.artists, updates);
    } else {
      var run := AddArtists(cat, updates, indexes, n - 1, holes, less);
      InsertableInit(cat.artists, updates, n);
      SingersAfter(cat, updates, indexes, n - 1, holes, less);
      AddArtistsTracked(cat, updates, indexes, n - 1, holes, less);
      AddArtistsGrows(cat, updates, indexes, n - 1, holes, less);
      TrackedStep(cat, updates, n - 1, run, holes[n - 1], less);
      TrackedNames(cat, updates, n - 1, run);
      AddedSingers(run, n - 1, updates[n - 1], holes[n - 1], less);
      NewStep(cat.artists, updates, n - 1);
    }
  }

  lemma NobodyNew(artists: seq<Artist>, updates: seq<Artist>)
    ensures !AnyNew(artists, updates, 0) && OneNew(artists, updates, 0)
  {}

  lemma TrackedNames(cat: Catalogue, updates: seq<Artist>, n: nat, run: AddRun)
    requires n < |updates| == |run.indexes| && Tracked(cat, updates, n, run)
    ensures HasName(run.cat.artists, updates[n].name) <==> !New(cat.artists, updates, n)
  {}

  /** New artists are stored with singerIdx 0, whatever the table has: the numbers by which later merges
      find artists stay distinct exactly when the request has at most one new artist and none if the
      table has a 0 already. */
  lemma AddedSingersDistinctIff(
    cat: Catalogue, updates: seq<Artist>, indexes: seq<U32>, holes: seq<Artist>, less: Less)
    requires |updates| == |indexes| == |holes| && |cat.artists| + |updates| < NO_ARTIST
    requires Insertable(cat.artists, updates, |updates|) && DistinctSingers(cat.artists)
    ensures
      DistinctSingers(AddArtists(cat, updates, indexes, |updates|, holes, less).cat.artists)
      <==> OneNew(cat.artists, updates, |updates|)
           && !(AnyNew(cat.artists, updates, |updates|) && HasSinger(cat.artists, 0))
  {
    hide AddArtists, Insertable, DistinctSingers, OneNew, AnyNew, HasSinger;
    SingersAfter(cat, updates, indexes, |updates|, holes, less);
  }

  // ---- when one does

  /** Artist b of the request points just past the table. */
  ghost predicate Dangles(run: AddRun, b: nat) { b < |run.indexes| && run.indexes[b] == |run.cat.artists| }

  lemma DanglesOn(run: AddRun, updates: seq<Artist>, n: nat, hole: Artist, less: Less, b: nat) returns (c: nat)
    requires n < |updates| == |run.indexes| && |run.cat.artists| < 0xFFFF_FFFE
    requires run.cursor <= |run.cat.artists| && b < n && Dangles(run, b)
    ensures c <= n && Dangles(AddOne(run, n, updates[n], hole, less), c)
  {
    var next := AddOne(run, n, updates[n], hole, less);
    c := if HasName(run.cat.artists, updates[n].name) || AskedIndex(run, updates[n]) < |run.cat.artists| then b else n;
  }

  lemma EndInsertionDangles(cat: Catalogue, updates: seq<Artist>, n: nat, run: AddRun, hole: Artist, less: Less)
    requires n < |updates| == |run.indexes| && |run.cat.artists| < 0xFFFF_FFFE
    requires run.cursor <= |run.cat.artists| && Tracked(cat, updates, n, run)
    requires |cat.artists| == 0 ==> |run.cat.artists| == 0
    requires New(cat.artists, updates, n) && (|cat.artists| == 0 || updates[n].credits.language >= 3)
    ensures Dangles(AddOne(run, n, updates[n], hole, less), n)
  {
    assert !HasName(run.cat.artists, updates[n].name);
  }

  lemma FirstOfEmptyIsNew(artists: seq<Artist>, updates: seq<Artist>)
    requires |artists| == 0 && |updates| > 0
    ensures New(artists, updates, 0)
  {
    assert updates[..0] == [];
  }

  /** While nothing was inserted at the end of an empty table, it is empty. */
  lemma {:induction false} EmptyStaysEmpty(
    cat: Catalogue, updates: seq<Artist>, indexes: seq<U32>, n: nat, holes: seq<Artist>, less: Less)
    requires n <= |updates| == |indexes| == |holes| && |cat.artists| == 0
    requires Insertable(cat.artists, updates, n)
    ensures n == 0 && |AddArtists(cat, updates, indexes, n, holes, less).cat.artists| == 0
  {
    if n > 0 {
      FirstOfEmptyIsNew(cat.artists, updates);
      assert false;
    }
  }

  lemma FirstUninsertable(artists: seq<Artist>, updates: seq<Artist>, n: nat)
    requires n <= |updates| && !Insertable(artists, updates, n)
    ensures n > 0
    ensures Insertable(artists, updates, n - 1) ==>
      New(artists, updates, n - 1) && (|artists| == 0 || updates[n - 1].credits.language >= 3)
  {}

  lemma {:induction false} AddArtistsDangles(
    cat: Catalogue, updates: seq<Artist>, indexes: seq<U32>, n: nat, holes: seq<Artist>, less: Less)
    returns (b: nat)
    requires n <= |updates| == |indexes| == |holes| && |cat.artists| + |updates| < NO_ARTIST
    requires !Insertable(cat.artists, updates, n)
    ensures b < n && Dangles(AddArtists(cat, updates, indexes, n, holes, less), b)
  {
    hide New, Insertable, HasName, Tracked, Dangles, AddOne;
    FirstUninsertable(cat.artists, updates, n);
    var run := AddArtists(cat, updates, indexes, n - 1, holes, less);
    AddArtistsGrows(cat, updates, indexes, n - 1, holes, less);
    if Insertable(cat.artists, updates, n - 1) {
      AddArtistsTracked(cat, updates, indexes, n - 1, holes, less);
      if |cat.artists| == 0 { EmptyStaysEmpty(cat, updates, indexes, n - 1, holes, less); }
      EndInsertionDangles(cat, updates, n - 1, run, holes[n - 1], less);
      b := n - 1;
    } else {
      b := AddArtistsDangles(cat, updates, indexes, n - 1, holes, less);
      b := DanglesOn(run, updates, n - 1, holes[n - 1], less, b);
    }
  }

  /** Every artist of the request ends up knowing its record exactly when no new one has to go to
      the end of the table; stale values of insertIndex from before do no harm. */
  lemma IndexesRightIff(cat: Catalogue, updates: seq<Artist>, indexes: seq<U32>, holes: seq<Artist>, less: Less)
    requires |updates| == |indexes| == |holes| && |cat.artists| + |updates| < NO_ARTIST
    ensures
      var run := AddArtists(cat, updates, indexes, |updates|, holes, less);
      AllDesignate(run, updates, |updates|) <==> Insertable(cat.artists, updates, |updates|)
  {
    hide AllDesignate, Insertable, Dangles, AddArtists, Tracked;
    var run := AddArtists(cat, updates, indexes, |updates|, holes, less);
    if Insertable(cat.artists, updates, |updates|) {
      AddArtistsTracked(cat, updates, indexes, |updates|, holes, less);
      TrackedDesignates(cat, updates, run);
    } else {
      var b := AddArtistsDangles(cat, updates, indexes, |updates|, holes, less);
      DanglingMisses(run, updates, b);
    }
  }

  lemma DanglingMisses(run: AddRun, updates: seq<Artist>, b: nat)
    requires |run.indexes| == |updates| && Dangles(run, b)
    ensures !AllDesignate(run, updates, |updates|)
  {
    assert !Designates(run, updates, b);
  }

  /** The smallest case that goes wrong: a Korean artist for a table of one. The record lands at
      position 2 of a table of two, whose last record is the hole. */
  lemma EndInsertionMisses(head: Artist, korean: Artist, hole: Artist, less: Less)
    requires head.name != korean.name && korean.credits.language == 5
    ensures
      var run := AddArtists(Catalogue([head], []), [korean], [0xFFFF_FFFF], 1, [hole], less);
      && run.cat.artists == [head, hole] && run.indexes == [2] && !Designates(run, [korean], 0)
  {
    var start := AddArtists(Catalogue([head], []), [korean], [0xFFFF_FFFF], 0, [hole], less);
    assert FirstByName(start.cat.artists, korean.name, 0) == 1;
  }

  lemma AppendStep(run: AddRun, i: nat, a: Artist, hole: Artist, less: Less)
    requires run.cursor == |run.cat.artists| < 0xFFFF_FFFE && i < |run.indexes| && a.credits.language < 3
    requires forall k | 0 <= k < |run.cat.artists| :: run.cat.artists[k].name != a.name
    ensures
      var next, size := AddOne(run, i, a, hole, less), |run.cat.artists|;
      && next.cat.artists == run.cat.artists + [hole] && next.cursor == size + 1 && next.indexes[i] == size + 1
      && forall k | 0 <= k < |run.indexes| && k != i && run.indexes[k] <= size :: next.indexes[k] == run.indexes[k]
  {
    hide ShiftSongs;
  }

  /** In an empty table every artist of language below 3 goes one place too far: the table ends up as whatever the
      array held, and each insertIndex leads one place past where its artist should be. */
  lemma {:induction false} EmptyTableFills(
    songs: seq<Entry>, updates: seq<Artist>, indexes: seq<U32>, n: nat, holes: seq<Artist>, less: Less)
    requires n <= |updates| == |indexes| == |holes| < NO_ARTIST
    requires forall i, j | 0 <= i < |updates| && 0 <= j < |holes| :: updates[i].name != holes[j].name
    requires forall i | 0 <= i < |updates| :: updates[i].credits.language < 3
    ensures
      var run := AddArtists(Catalogue([], songs), updates, indexes, n, holes, less);
      run.cat.artists == holes[..n] && run.cursor == n && forall i | 0 <= i < n :: run.indexes[i] == i + 1
  {
    hide AddOne;
    if n > 0 {
      EmptyTableFills(songs, updates, indexes, n - 1, holes, less);
      var run := AddArtists(Catalogue([], songs), updates, indexes, n - 1, holes, less);
      AppendStep(run, n - 1, updates[n - 1], holes[n - 1], less);
      assert holes[..n] == holes[..n - 1] + [holes[n - 1]];
    }
  }

  // ---- when the array has room for the record one place too far

  /** Artist i of the request will be found: the table has its name, or an earlier artist of the request
      brings it into the table. */
  ghost predicate SureFound(artists: seq<Artist>, updates: seq<Artist>, i: nat)
    requires i < |updates|
  {
    || HasName(artists, updates[i].name)
    || (|artists| > 0 && exists j | 0 <= j < i ::
          updates[j].credits.language < 3 && updates[j].name == updates[i].name)
  }

  /** One cell of the array is to spare when the last artist of the request comes, or it does not need one: an
      artist of the request is found, or the last one goes inside the table. */
  ghost predicate Spared(artists: seq<Artist>, updates: seq<Artist>)
  {
    || (exists i | 0 <= i < |updates| :: SureFound(artists, updates, i))
    || (|artists| > 0 && |updates| > 0 && updates[|updates| - 1].credits.language < 3)
  }

  lemma AddOneKeepsName(run: AddRun, i: nat, a: Artist, hole: Artist, less: Less, name: Str)
    requires run.cursor <= |run.cat.artists| && i < |run.indexes| && HasName(run.cat.artists, name)
    ensures HasName(AddOne(run, i, a, hole, less).cat.artists, name)
  {
    hide Insert, ShiftSongs, Bump, Promote;
    var artists, after := run.cat.artists, AddOne(run, i, a, hole, less).cat.artists;
    var j := FirstByName(artists, a.name, 0);
    if j < |artists| {
      SameNames(artists, after, name);
    } else if AskedIndex(run, a) < |artists| {
      InsertedNames(artists, FindArtist(artists, a.name, AskedIndex(run, a), less), Fresh(a), name);
    } else {
      var k :| 0 <= k < |artists| && artists[k].name == name;
      assert after[k].name == name;
    }
  }

  lemma {:induction false} AddArtistsKeepName(
    cat: Catalogue, updates: seq<Artist>, indexes: seq<U32>, m: nat, n: nat, holes: seq<Artist>, less: Less, name: Str)
    requires m <= n <= |updates| == |indexes| == |holes|
    requires HasName(AddArtists(cat, updates, indexes, m, holes, less).cat.artists, name)
    ensures HasName(AddArtists(cat, updates, indexes, n, holes, less).cat.artists, name)
  {
    hide HasName, AddOne;
    if m < n {
      AddArtistsKeepName(cat, updates, indexes, m, n - 1, holes, less, name);
      AddOneKeepsName(
        AddArtists(cat, updates, indexes, n - 1, holes, less), n - 1, updates[n - 1], holes[n - 1], less, name);
    }
  }

  lemma {:induction false} CursorInside(
    cat: Catalogue, updates: seq<Artist>, indexes: seq<U32>, n: nat, holes: seq<Artist>, less: Less)
    requires n <= |updates| == |indexes| == |holes| && |cat.artists| > 0
    ensures var run := AddArtists(cat, updates, indexes, n, holes, less); run.cursor < |run.cat.artists|
  {
    hide ShiftSongs, Bump;
    if n > 0 { CursorInside(cat, updates, indexes, n - 1, holes, less); }
  }

  lemma SureFoundIsFound(
    cat: Catalogue, updates: seq<Artist>, indexes: seq<U32>, k: nat, holes: seq<Artist>, less: Less)
    requires k < |updates| == |indexes| == |holes| && SureFound(cat.artists, updates, k)
    ensures HasName(AddArtists(cat, updates, indexes, k, holes, less).cat.artists, updates[k].name)
  {
    hide HasName, AddArtists;
    if HasName(cat.artists, updates[k].name) {
      KnownAtStart(cat, updates, indexes, holes, less, updates[k].name);
      AddArtistsKeepName(cat, updates, indexes, 0, k, holes, less, updates[k].name);
    } else {
      var j :| 0 <= j < k && updates[j].credits.language < 3 && updates[j].name == updates[k].name;
      SearchedGoesIn(cat, updates, indexes, j, holes, less);
      AddArtistsKeepName(cat, updates, indexes, j + 1, k, holes, less, updates[k].name);
    }
  }

  lemma KnownAtStart(
    cat: Catalogue, updates: seq<Artist>, indexes: seq<U32>, holes: seq<Artist>, less: Less, name: Str)
    requires |updates| == |indexes| == |holes| && HasName(cat.artists, name)
    ensures HasName(AddArtists(cat, updates, indexes, 0, holes, less).cat.artists, name)
  {}

  lemma SearchedGoesIn(
    cat: Catalogue, updates: seq<Artist>, indexes: seq<U32>, j: nat, holes: seq<Artist>, less: Less)
    requires j < |updates| == |indexes| == |holes| && |cat.artists| > 0 && updates[j].credits.language < 3
    ensures HasName(AddArtists(cat, updates, indexes, j + 1, holes, less).cat.artists, updates[j].name)
  {
    hide HasName, AddOne;
    CursorInside(cat, updates, indexes, j, holes, less);
    AddedNames(
      AddArtists(cat, updates, indexes, j, holes, less), j, updates[j], holes[j], less, updates[j].name);
  }

  lemma FoundAddsNone(run: AddRun, i: nat, a: Artist, hole: Artist, less: Less)
    requires run.cursor <= |run.cat.artists| && i < |run.indexes| && HasName(run.cat.artists, a.name)
    ensures |AddOne(run, i, a, hole, less).cat.artists| == |run.cat.artists|
  {
    NamedIff(run.cat.artists, a.name);
  }

  lemma {:induction false} KnownAddsNone(
    cat: Catalogue, updates: seq<Artist>, indexes: seq<U32>, n: nat, holes: seq<Artist>, less: Less, k: nat)
    requires k < n <= |updates| == |indexes| == |holes| && SureFound(cat.artists, updates, k)
    ensures |AddArtists(cat, updates, indexes, n, holes, less).cat.artists| < |cat.artists| + n
  {
    hide HasName, AddOne, SureFound;
    var run := AddArtists(cat, updates, indexes, n - 1, holes, less);
    if k == n - 1 {
      AddArtistsGrows(cat, updates, indexes, n - 1, holes, less);
      SureFoundIsFound(cat, updates, indexes, k, holes, less);
      FoundAddsNone(run, n - 1, updates[n - 1], holes[n - 1], less);
    } else {
      KnownAddsNone(cat, updates, indexes, n - 1, holes, less, k);
      AddOneGrows(run, n - 1, updates[n - 1], holes[n - 1], less);
    }
  }

  /** Arrays of |cat.artists| + |updates| cells hold every record insert_artist writes. */
  lemma RoundFits(
    cat: Catalogue, updates: seq<Artist>, indexes: seq<U32>, i: nat, holes: seq<Artist>, less: Less)
    requires i < |updates| == |indexes| == |holes| && |cat.artists| + |updates| < NO_ARTIST
    requires Spared(cat.artists, updates)
    ensures
      var run := AddArtists(cat, updates, indexes, i, holes, less);
      && |run.cat.artists| <= |cat.artists| + i
      && (HasName(run.cat.artists, updates[i].name) || AskedIndex(run, updates[i]) < |run.cat.artists|
          || |run.cat.artists| + 1 < |cat.artists| + |updates|)
  {
    hide AddArtists, HasName, SureFound;
    AddArtistsGrows(cat, updates, indexes, i, holes, less);
    if i == |updates| - 1 {
      if |cat.artists| > 0 && updates[i].credits.language < 3 {
        CursorInside(cat, updates, indexes, i, holes, less);
      } else {
        var k :| 0 <= k < |updates| && SureFound(cat.artists, updates, k);
        if k < i {
          KnownAddsNone(cat, updates, indexes, i, holes, less, k);
        } else {
          SureFoundIsFound(cat, updates, indexes, i, holes, less);
        }
      }
    }
  }

  /** A request that keeps its artists right is one of these. */
  lemma InsertableSpared(artists: seq<Artist>, updates: seq<Artist>)
    requires Insertable(artists, updates, |updates|) && |updates| > 0
    ensures Spared(artists, updates)
  {
    var i := |updates| - 1;
    if New(artists, updates, i) {
      assert |artists| > 0 && updates[i].credits.language < 3;
    } else {
      if !HasName(artists, updates[i].name) {
        var j := FirstByName(updates, updates[i].name, 0);
        FirstIsNew(artists, updates, i, j);
        assert |artists| > 0 && updates[j].credits.language < 3;
      }
      assert SureFound(artists, updates, i);
    }
  }

  lemma FirstIsNew(artists: seq<Artist>, updates: seq<Artist>, i: nat, j: nat)
    requires i < |updates| && HasName(updates[..i], updates[i].name) && !HasName(artists, updates[i].name)
    requires j == FirstByName(updates, updates[i].name, 0)
    ensures j < i && updates[j].name == updates[i].name && New(artists, updates, j)
  {
    var k :| 0 <= k < i && updates[..i][k].name == updates[i].name;
    assert updates[k].name == updates[i].name;
  }

  /** Only the holes met so far matter. */
  lemma {:induction false} SameHoles(
    cat: Catalogue, updates: seq<Artist>, indexes: seq<U32>, n: nat, a: seq<Artist>, b: seq<Artist>, less: Less)
    requires n <= |updates| == |indexes| == |a| == |b| && forall k | 0 <= k < n :: a[k] == b[k]
    ensures AddArtists(cat, updates, indexes, n, a, less) == AddArtists(cat, updates, indexes, n, b, less)
  {
    hide AddOne;
    if n > 0 { SameHoles(cat, updates, indexes, n - 1, a, b, less); }
  }

  // ---- old songs

  lemma AddOneFollows(run: AddRun, i: nat, a: Artist, hole: Artist, less: Less)
    requires run.cursor <= |run.cat.artists| && i < |run.indexes| && |run.cat.artists| + 1 < NO_ARTIST
    requires SongsInTable(run.cat.songs, |run.cat.artists|)
    ensures Follows(run.cat, AddOne(run, i, a, hole, less).cat)
  {
    hide ShiftSlots, SlotsFollow, Insert, Promote, FindArtist;
    var c, d := run.cat, AddOne(run, i, a, hole, less).cat;
    var j := FirstByName(c.artists, a.name, 0);
    var at := if AskedIndex(run, a) >= |c.artists| then AskedIndex(run, a) + 1
      else FindArtist(c.artists, a.name, AskedIndex(run, a), less);
    forall k | 0 <= k < |c.songs|
      ensures EntryFollows(c.songs[k], c.artists, d.songs[k], d.artists)
    {
      if j < |c.artists| {
        PromotedFollows(c.songs[k].singers, c.artists, j, a.credits);
        PromotedFollows(c.songs[k].authors, c.artists, j, a.credits);
      } else if at <= |c.artists| {
        ShiftedSlotsFollow(c.songs[k].singers, c.artists, at, Fresh(a));
        ShiftedSlotsFollow(c.songs[k].authors, c.artists, at, Fresh(a));
      } else {
        NothingShifts(c.songs[k].singers, c.artists, hole, at);
        NothingShifts(c.songs[k].authors, c.artists, hole, at);
      }
    }
  }

  lemma PromotedFollows(s: Slots, from: seq<Artist>, j: nat, credits: Credits)
    requires InTable(s, |from|) && j < |from|
    ensures SlotsFollow(s, from, s, from[j := from[j].(credits := Promote(from[j].credits, credits))])
  {}

  lemma NothingShifts(s: Slots, from: seq<Artist>, hole: Artist, at: nat)
    requires InTable(s, |from|) && at > |from|
    ensures SlotsFollow(s, from, ShiftSlots(s, at), from + [hole])
  {
    assert ShiftSlots(s, at) == s;
  }

  lemma FollowsItself(cat: Catalogue)
    requires SongsInTable(cat.songs, |cat.artists|)
    ensures Follows(cat, cat)
  {
    forall k | 0 <= k < |cat.songs|
      ensures EntryFollows(cat.songs[k], cat.artists, cat.songs[k], cat.artists)
    {}
  }

  /** Whatever is added, the songs already there keep their artists: even a record gone past the
      end shifts nothing in front of it. */
  lemma {:induction false} AddArtistsFollows(
    cat: Catalogue, updates: seq<Artist>, indexes: seq<U32>, n: nat, holes: seq<Artist>, less: Less)
    requires n <= |updates| == |indexes| == |holes| && |cat.artists| + |updates| < NO_ARTIST
    requires SongsInTable(cat.songs, |cat.artists|)
    ensures Follows(cat, AddArtists(cat, updates, indexes, n, holes, less).cat)
  {
    hide AddOne, EntryFollows, InTable;
    if n == 0 {
      FollowsItself(cat);
    } else {
      var run := AddArtists(cat, updates, indexes, n - 1, holes, less);
      AddArtistsGrows(cat, updates, indexes, n - 1, holes, less);
      AddArtistsFollows(cat, updates, indexes, n - 1, holes, less);
      FollowsInTable(cat, run.cat);
      AddOneFollows(run, n - 1, updates[n - 1], holes[n - 1], less);
      FollowsTransitive(cat, run.cat, AddOne(run, n - 1, updates[n - 1], holes[n - 1], less).cat);
    }
  }
}
