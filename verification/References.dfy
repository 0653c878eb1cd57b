/** Referential integrity of merge_singer_info: whatever is inserted in front of them, the slots
    of the songs already in the index go on meaning the same artists. */
module References {
  import opened Bytes
  import opened Records
  import opened Catalogue

  /** b is the record a, with singer and author roles at most added. */
  ghost predicate SamePerson(a: Artist, b: Artist)
  {
    && b == a.(credits := b.credits)
    && b.credits == a.credits.(isSinger := b.credits.isSinger, isAuthor := b.credits.isAuthor)
    && (a.credits.isSinger ==> b.credits.isSinger)
    && (a.credits.isAuthor ==> b.credits.isAuthor)
  }

  ghost predicate InTable(s: Slots, n: nat)
  {
    forall k | 0 <= k < Live(s) :: s[k] < n
  }

  ghost predicate SongsInTable<S, C>(songs: seq<Song<S, C>>, n: nat)
  {
    forall j | 0 <= j < |songs| :: InTable(songs[j].singers, n) && InTable(songs[j].authors, n)
  }

  /** Slot by slot, t in table `to` names the artists that s names in table `from`. */
  ghost predicate SlotsFollow(s: Slots, from: seq<Artist>, t: Slots, to: seq<Artist>)
  {
    && InTable(s, |from|) && InTable(t, |to|) && Live(t) == Live(s)
    && forall k | 0 <= k < Live(s) :: SamePerson(from[s[k]], to[t[k]])
  }

  ghost predicate EntryFollows(e: Entry, from: seq<Artist>, f: Entry, to: seq<Artist>)
  {
    && f == e.(singers := f.singers, authors := f.authors)
    && SlotsFollow(e.singers, from, f.singers, to)
    && SlotsFollow(e.authors, from, f.authors, to)
  }

  ghost predicate Follows(c: Catalogue, d: Catalogue)
  {
    && |c.songs| == |d.songs|
    && forall j | 0 <= j < |c.songs| :: EntryFollows(c.songs[j], c.artists, d.songs[j], d.artists)
  }

  lemma FollowsTransitive(c: Catalogue, d: Catalogue, e: Catalogue)
    requires Follows(c, d) && Follows(d, e)
    ensures Follows(c, e)
  {
    forall j | 0 <= j < |c.songs|
      ensures EntryFollows(c.songs[j], c.artists, e.songs[j], e.artists)
    {
      assert EntryFollows(c.songs[j], c.artists, d.songs[j], d.artists);
      assert EntryFollows(d.songs[j], d.artists, e.songs[j], e.artists);
    }
  }

  lemma ShiftedSlotsFollow(s: Slots, from: seq<Artist>, at: nat, x: Artist)
    requires InTable(s, |from|) && at <= |from| && |from| + 1 < NO_ARTIST
    ensures SlotsFollow(s, from, ShiftSlots(s, at), Insert(from, at, x))
  {
    hide ShiftSlots, Live;
    ShiftedLive(s, |from|, at);
  }

  lemma ShiftedLive(s: Slots, n: nat, at: nat)
    requires InTable(s, n) && n + 1 < NO_ARTIST
    ensures
      var t := ShiftSlots(s, at);
      Live(t) == Live(s) && forall k | 0 <= k < Live(s) :: t[k] == if s[k] >= at then s[k] + 1 else s[k]
  {
    var t := ShiftSlots(s, at);
    assert forall k | 0 <= k < Live(s) :: t[k] == if s[k] >= at then s[k] + 1 else s[k];
    assert forall k | Live(s) <= k < MAX_ARTIST_PER_SONG :: t[k] == s[k];
  }

  /** One round keeps every song's artists, whether it inserts or finds. */
  lemma MergeArtistFollows(run: ArtistRun, a: Artist, less: Less)
    requires run.cursor <= |run.cat.artists| && |run.cat.artists| + 1 < NO_ARTIST
    requires SongsInTable(run.cat.songs, |run.cat.artists|)
    ensures Follows(run.cat, MergeArtist(run, a, less).cat)
    ensures |MergeArtist(run, a, less).cat.artists| <= |run.cat.artists| + 1
  {
    var c, d := run.cat, MergeArtist(run, a, less).cat;
    forall j | 0 <= j < |c.songs|
      ensures EntryFollows(c.songs[j], c.artists, d.songs[j], d.artists)
    {
      if FirstBySinger(c.artists, a.singerIdx) == |c.artists| {
        var at := PlaceArtist(c.artists, a, run.cursor, less);
        var x := a.(credits := Doubled(a.credits));
        ShiftedSlotsFollow(c.songs[j].singers, c.artists, at, x);
        ShiftedSlotsFollow(c.songs[j].authors, c.artists, at, x);
      }
    }
  }

  lemma FollowsInTable(c: Catalogue, d: Catalogue)
    requires Follows(c, d)
    ensures SongsInTable(d.songs, |d.artists|)
  {
    forall j | 0 <= j < |d.songs|
      ensures InTable(d.songs[j].singers, |d.artists|) && InTable(d.songs[j].authors, |d.artists|)
    {
      assert EntryFollows(c.songs[j], c.artists, d.songs[j], d.artists);
    }
  }

  /** The first part of a merge keeps every old song's artists. */
  lemma {:induction false} MergeArtistsFollows(cat: Catalogue, updates: seq<Artist>, n: nat, less: Less)
    requires n <= |updates| && |cat.artists| + n < NO_ARTIST
    requires SongsInTable(cat.songs, |cat.artists|)
    ensures Follows(cat, MergeArtists(cat, updates, n, less).cat)
    ensures |MergeArtists(cat, updates, n, less).cat.artists| <= |cat.artists| + n
  {
    if n > 0 {
      var run := MergeArtists(cat, updates, n - 1, less);
      MergeArtistsFollows(cat, updates, n - 1, less);
      FollowsInTable(cat, run.cat);
      MergeArtistFollows(run, updates[n - 1], less);
      FollowsTransitive(cat, run.cat, MergeArtist(run, updates[n - 1], less).cat);
    }
  }

  ghost predicate HasSinger<S>(artists: seq<Person<S>>, singerIdx: U32)
  {
    exists j | 0 <= j < |artists| :: artists[j].singerIdx == singerIdx
  }

  lemma MergeArtistHasSinger(run: ArtistRun, a: Artist, less: Less, singerIdx: U32)
    requires run.cursor <= |run.cat.artists|
    requires HasSinger(run.cat.artists, singerIdx) || a.singerIdx == singerIdx
    ensures HasSinger(MergeArtist(run, a, less).cat.artists, singerIdx)
  {
    var artists, after := run.cat.artists, MergeArtist(run, a, less).cat.artists;
    var j := FirstBySinger(artists, a.singerIdx);
    if HasSinger(artists, singerIdx) {
      var i :| 0 <= i < |artists| && artists[i].singerIdx == singerIdx;
      if j < |artists| {
        assert after[i].singerIdx == singerIdx;
      } else {
        var at := PlaceArtist(artists, a, run.cursor, less);
        assert after[if i < at then i else i + 1].singerIdx == singerIdx;
      }
    } else if j < |artists| {
      assert false;
    } else {
      assert after[PlaceArtist(artists, a, run.cursor, less)].singerIdx == singerIdx;
    }
  }

  /** Every update artist is in the merged table, found there or put there. */
  lemma {:induction false} MergeArtistsHasSinger(cat: Catalogue, updates: seq<Artist>, n: nat, i: nat, less: Less)
    requires i < n <= |updates|
    ensures HasSinger(MergeArtists(cat, updates, n, less).cat.artists, updates[i].singerIdx)
  {
    if i < n - 1 {
      MergeArtistsHasSinger(cat, updates, n - 1, i, less);
    }
    MergeArtistHasSinger(MergeArtists(cat, updates, n - 1, less), updates[n - 1], less, updates[i].singerIdx);
  }

  /** Artist u of the update has its record: with the roles u has, and made from u if it is new. */
  ghost predicate Taken(artists: seq<Artist>, u: Artist, isNew: bool)
  {
    exists j | 0 <= j < |artists| :: TakenAt(artists[j], u, isNew)
  }

  ghost predicate TakenAt(a: Artist, u: Artist, isNew: bool)
  {
    && a.singerIdx == u.singerIdx
    && (u.credits.isSinger ==> a.credits.isSinger) && (u.credits.isAuthor ==> a.credits.isAuthor)
    && (isNew ==>
          a == Person(
            Credits(u.credits.nameWords, a.credits.isSinger, a.credits.isAuthor, u.credits.singerType,
                    2 * u.credits.singerSongs % 0x40_0000, u.credits.language,
                    2 * u.credits.authorSongs % 0x40_0000, u.credits.reserved),
            u.name, u.pinyin, u.singerIdx))
  }

  lemma MergeArtistTakes(run: ArtistRun, a: Artist, less: Less)
    requires run.cursor <= |run.cat.artists|
    ensures Taken(MergeArtist(run, a, less).cat.artists, a, !HasSinger(run.cat.artists, a.singerIdx))
  {
    var artists, after := run.cat.artists, MergeArtist(run, a, less).cat.artists;
    var j := FirstBySinger(artists, a.singerIdx);
    var at := if j < |artists| then j else PlaceArtist(artists, a, run.cursor, less);
    assert j < |artists| ==> HasSinger(artists, a.singerIdx);
    assert TakenAt(after[at], a, !HasSinger(artists, a.singerIdx));
  }

  lemma MergeArtistKeepsTaken(run: ArtistRun, a: Artist, less: Less, u: Artist, isNew: bool)
    requires run.cursor <= |run.cat.artists| && Taken(run.cat.artists, u, isNew)
    ensures Taken(MergeArtist(run, a, less).cat.artists, u, isNew)
  {
    var artists, after := run.cat.artists, MergeArtist(run, a, less).cat.artists;
    var i :| 0 <= i < |artists| && TakenAt(artists[i], u, isNew);
    var j := FirstBySinger(artists, a.singerIdx);
    if j < |artists| {
      assert TakenAt(after[i], u, isNew);
    } else {
      var at := PlaceArtist(artists, a, run.cursor, less);
      assert after[if i < at then i else i + 1] == artists[i];
    }
  }

  lemma {:induction false} MergedSingers(cat: Catalogue, updates: seq<Artist>, n: nat, less: Less, singerIdx: U32)
    requires n <= |updates| && HasSinger(MergeArtists(cat, updates, n, less).cat.artists, singerIdx)
    ensures HasSinger(cat.artists, singerIdx) || HasSinger(updates[..n], singerIdx)
  {
    if n > 0 {
      var run := MergeArtists(cat, updates, n - 1, less);
      SingersOneMore(run, updates[n - 1], less, singerIdx);
      if HasSinger(run.cat.artists, singerIdx) {
        MergedSingers(cat, updates, n - 1, less, singerIdx);
        if HasSinger(updates[..n - 1], singerIdx) {
          var j :| 0 <= j < n - 1 && updates[..n - 1][j].singerIdx == singerIdx;
          assert updates[..n][j].singerIdx == singerIdx;
        }
      } else {
        assert updates[..n][n - 1].singerIdx == singerIdx;
      }
    }
  }

  lemma SingersOneMore(run: ArtistRun, a: Artist, less: Less, singerIdx: U32)
    requires run.cursor <= |run.cat.artists|
    requires HasSinger(MergeArtist(run, a, less).cat.artists, singerIdx)
    ensures HasSinger(run.cat.artists, singerIdx) || a.singerIdx == singerIdx
  {
    var artists, after := run.cat.artists, MergeArtist(run, a, less).cat.artists;
    var i :| 0 <= i < |after| && after[i].singerIdx == singerIdx;
    if FirstBySinger(artists, a.singerIdx) < |artists| {
      assert artists[i].singerIdx == singerIdx;
    } else {
      var at := PlaceArtist(artists, a, run.cursor, less);
      if i < at { assert artists[i].singerIdx == singerIdx; }
      if i > at { assert artists[i - 1].singerIdx == singerIdx; }
    }
  }

  /** What a merge makes of each artist of the update: a record with its singerIdx and its roles,
      and, where there was none with this singerIdx before it, one that carries its own strings and
      its doubled counts. */
  lemma {:induction false} MergeArtistsTakes(cat: Catalogue, updates: seq<Artist>, n: nat, i: nat, less: Less)
    requires i < n <= |updates|
    ensures
      var isNew := !HasSinger(cat.artists, updates[i].singerIdx) && !HasSinger(updates[..i], updates[i].singerIdx);
      Taken(MergeArtists(cat, updates, n, less).cat.artists, updates[i], isNew)
  {
    hide MergeArtist, Taken, HasSinger;
    var run := MergeArtists(cat, updates, n - 1, less);
    if i < n - 1 {
      MergeArtistsTakes(cat, updates, n - 1, i, less);
      MergeArtistKeepsTaken(
        run, updates[n - 1], less, updates[i],
        !HasSinger(cat.artists, updates[i].singerIdx) && !HasSinger(updates[..i], updates[i].singerIdx));
    } else {
      MergeArtistTakes(run, updates[i], less);
      if HasSinger(run.cat.artists, updates[i].singerIdx) {
        MergedSingers(cat, updates, i, less, updates[i].singerIdx);
        TakenWeaker(MergeArtist(run, updates[i], less).cat.artists, updates[i]);
      } else {
        TakenWeaker(MergeArtist(run, updates[i], less).cat.artists, updates[i]);
      }
    }
  }

  lemma TakenWeaker(artists: seq<Artist>, u: Artist)
    ensures Taken(artists, u, true) ==> Taken(artists, u, false)
  {
    if Taken(artists, u, true) {
      var j :| 0 <= j < |artists| && TakenAt(artists[j], u, true);
      assert TakenAt(artists[j], u, false);
    }
  }

  ghost predicate DistinctSingers<S>(artists: seq<Person<S>>)
  {
    forall i, j | 0 <= i < j < |artists| :: artists[i].singerIdx != artists[j].singerIdx
  }

  lemma MergeArtistDistinct(run: ArtistRun, a: Artist, less: Less)
    requires run.cursor <= |run.cat.artists| && DistinctSingers(run.cat.artists)
    ensures DistinctSingers(MergeArtist(run, a, less).cat.artists)
  {}

  lemma {:induction false} MergeArtistsDistinct(cat: Catalogue, updates: seq<Artist>, n: nat, less: Less)
    requires n <= |updates| && DistinctSingers(cat.artists)
    ensures DistinctSingers(MergeArtists(cat, updates, n, less).cat.artists)
  {
    if n > 0 {
      MergeArtistsDistinct(cat, updates, n - 1, less);
      MergeArtistDistinct(MergeArtists(cat, updates, n - 1, less), updates[n - 1], less);
    }
  }

  /** t names, slot by slot, artists with the singerIdx that s names in the update. */
  ghost predicate SlotsLink(s: Slots, updates: seq<Artist>, t: Slots, artists: seq<Artist>)
  {
    && InTable(s, |updates|) && InTable(t, |artists|) && Live(t) == Live(s)
    && forall k | 0 <= k < Live(s) :: artists[t[k]].singerIdx == updates[s[k]].singerIdx
  }

  lemma RelinkLinks(s: Slots, updates: seq<Artist>, artists: seq<Artist>)
    requires InTable(s, |updates|) && |artists| < NO_ARTIST
    requires forall i | 0 <= i < |updates| :: HasSinger(artists, updates[i].singerIdx)
    ensures SlotsLink(s, updates, Relink(s, updates, artists), artists)
  {
    hide Live, FirstBySinger, HasSinger;
    assert Live(s) > 0 ==> s[0] < |updates|;
    var t := Relink(s, updates, artists);
    forall k | 0 <= k < Live(s)
      ensures t[k] < |artists| && artists[t[k]].singerIdx == updates[s[k]].singerIdx
    {
      SingerFound(artists, updates[s[k]].singerIdx);
    }
    LiveSame(s, t);
  }

  /** Slot by slot, for any indices: a slot in use gets the first record of the merged table with the singerIdx of
      the artist it names in the update, or of the update's first artist if it names none; it stays if there
      is no such record, and so do the slots behind. */
  lemma RelinkSlot(s: Slots, updates: seq<Artist>, artists: seq<Artist>, k: nat)
    requires |updates| > 0 && |artists| < NO_ARTIST && k < MAX_ARTIST_PER_SONG
    ensures
      var t, singerIdx := Relink(s, updates, artists)[k],
        if s[k] as int < |updates| then updates[s[k]].singerIdx else updates[0].singerIdx;
      if k < Live(s) && HasSinger(artists, singerIdx) then
        && t < |artists| && artists[t].singerIdx == singerIdx
        && forall i | 0 <= i < t :: artists[i].singerIdx != singerIdx
      else t == s[k]
  {
    hide Live;
  }

  lemma SingerFound(artists: seq<Artist>, singerIdx: U32)
    requires HasSinger(artists, singerIdx)
    ensures FirstBySinger(artists, singerIdx) < |artists|
  {}

  lemma LiveSame(s: Slots, t: Slots)
    requires forall k | 0 <= k < Live(s) :: t[k] != NO_ARTIST
    requires forall k | Live(s) <= k < MAX_ARTIST_PER_SONG :: t[k] == s[k]
    ensures Live(t) == Live(s)
  {}
}
