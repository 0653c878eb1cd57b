/** Conservation through merge_songInfo: nothing is lost, repeated or reordered. */
module Conservation {
  import opened Bytes
  import opened Records
  import opened Catalogue
  import opened References

  ghost function Codes(songs: seq<Entry>): set<U32>
  {
    set j | 0 <= j < |songs| :: songs[j].info.code6
  }

  ghost predicate DistinctCodes(songs: seq<Entry>)
  {
    forall i, j | 0 <= i < j < |songs| :: songs[i].info.code6 != songs[j].info.code6
  }

  /** The songs whose code is in codes (want), or the others (!want), in table order. */
  function Pick(songs: seq<Entry>, codes: set<U32>, want: bool): seq<Entry>
  {
    if |songs| == 0 then []
    else if (songs[0].info.code6 in codes) == want then [songs[0]] + Pick(songs[1..], codes, want)
    else Pick(songs[1..], codes, want)
  }

  lemma {:induction false} PickConcat(a: seq<Entry>, b: seq<Entry>, codes: set<U32>, want: bool)
    ensures Pick(a + b, codes, want) == Pick(a, codes, want) + Pick(b, codes, want)
  {
    if |a| == 0 {
      assert a + b == b;
    } else {
      assert (a + b)[1..] == a[1..] + b;
      PickConcat(a[1..], b, codes, want);
    }
  }

  lemma {:induction false} PickAll(songs: seq<Entry>, codes: set<U32>, want: bool)
    requires forall j | 0 <= j < |songs| :: (songs[j].info.code6 in codes) == want
    ensures Pick(songs, codes, want) == songs && Pick(songs, codes, !want) == []
  {
    if |songs| > 0 {
      PickAll(songs[1..], codes, want);
    }
  }

  lemma {:induction false} PickSplits(songs: seq<Entry>, codes: set<U32>)
    ensures multiset(Pick(songs, codes, true)) + multiset(Pick(songs, codes, false)) == multiset(songs)
  {
    if |songs| > 0 {
      PickSplits(songs[1..], codes);
      assert songs == [songs[0]] + songs[1..];
    }
  }

  lemma PickOne(x: Entry, codes: set<U32>, want: bool)
    ensures Pick([x], codes, want) == if (x.info.code6 in codes) == want then [x] else []
  {
    assert Pick([x][1..], codes, want) == [];
  }

  /** Inserting a song on the other side of the choice changes nothing. */
  lemma PickInsert(songs: seq<Entry>, at: nat, x: Entry, codes: set<U32>, want: bool)
    requires at <= |songs| && (x.info.code6 in codes) != want
    ensures Pick(Insert(songs, at, x), codes, want) == Pick(songs, codes, want)
  {
    hide Pick;
    var l, r := songs[..at], songs[at..];
    assert Insert(songs, at, x) == l + ([x] + r) && songs == l + r;
    PickConcat(l, [x] + r, codes, want);
    PickConcat(l, r, codes, want);
    PickConcat([x], r, codes, want);
    PickOne(x, codes, want);
  }

  /** The update songs that the insertion loop stores, in update order: neither marked for
      deletion, nor present in the table, nor stored before. */
  function Accepted(songs: seq<Entry>, updates: seq<Entry>, dropped: seq<bool>, n: nat): seq<Entry>
    requires n <= |updates| == |dropped|
  {
    if n == 0 then []
    else AcceptOne(songs, Accepted(songs, updates, dropped, n - 1), updates[n - 1], dropped[n - 1])
  }

  function AcceptOne(songs: seq<Entry>, before: seq<Entry>, u: Entry, drop: bool): seq<Entry>
  {
    if drop || HasCode6(songs, u.info.code6) || HasCode6(before, u.info.code6) then before else before + [u]
  }

  lemma InsertCodes(songs: seq<Entry>, at: nat, x: Entry)
    requires at <= |songs|
    ensures Codes(Insert(songs, at, x)) == Codes(songs) + {x.info.code6}
  {
    var t := Insert(songs, at, x);
    assert t[at] == x;
    assert forall j | 0 <= j < |songs| :: songs[j] == t[if j < at then j else j + 1];
  }

  lemma InsertMultiset(songs: seq<Entry>, at: nat, x: Entry)
    requires at <= |songs|
    ensures multiset(Insert(songs, at, x)) == multiset(songs) + multiset([x])
  {
    assert songs == songs[..at] + songs[at..] && Insert(songs, at, x) == songs[..at] + [x] + songs[at..];
  }

  /** `after` holds `songs`, in order and untouched, and the songs of `more`; nothing else. */
  ghost predicate Conserved(songs: seq<Entry>, more: seq<Entry>, after: seq<Entry>)
  {
    && multiset(after) == multiset(songs) + multiset(more)
    && |after| == |songs| + |more|
    && Codes(after) == Codes(songs) + Codes(more)
    && Codes(songs) !! Codes(more)
    && Pick(after, Codes(songs), true) == songs
  }

  lemma InsertConserves(songs: seq<Entry>, more: seq<Entry>, after: seq<Entry>, at: nat, x: Entry)
    requires Conserved(songs, more, after)
    requires at <= |after| && x.info.code6 !in Codes(after)
    ensures Conserved(songs, more + [x], Insert(after, at, x))
  {
    InsertCodes(after, at, x);
    InsertMultiset(after, at, x);
    InsertCodes(more, |more|, x);
    assert Insert(more, |more|, x) == more + [x];
    PickInsert(after, at, x, Codes(songs), true);
  }

  /** What the insertion loop has done after n rounds. */
  lemma {:induction false} InsertPassConserves(
    songs: seq<Entry>, updates: seq<Entry>, dropped: seq<bool>, n: nat, less: Less)
    requires n <= |updates| == |dropped|
    ensures Conserved(songs, Accepted(songs, updates, dropped, n), InsertPass(songs, updates, dropped, n, less).songs)
  {
    hide Conserved, Pick, Codes, Insert, FindSong;
    if n == 0 {
      NothingMore(songs);
    } else {
      var run := InsertPass(songs, updates, dropped, n - 1, less);
      var accepted := Accepted(songs, updates, dropped, n - 1);
      var u := updates[n - 1];
      InsertPassConserves(songs, updates, dropped, n - 1, less);
      ConservedHas(songs, accepted, run.songs, u.info.code6);
      if !dropped[n - 1] && u.info.code6 !in Codes(run.songs) {
        InsertConserves(songs, accepted, run.songs, PlaceSong(run.songs, u, run.cursor, less), u);
      }
    }
  }

  lemma NothingMore(songs: seq<Entry>)
    ensures Conserved(songs, [], songs)
  {
    PickAll(songs, Codes(songs), true);
  }

  lemma ConservedHas(songs: seq<Entry>, more: seq<Entry>, after: seq<Entry>, code6: U32)
    requires Conserved(songs, more, after)
    ensures HasCode6(after, code6) <==> HasCode6(songs, code6) || HasCode6(more, code6)
    ensures HasCode6(after, code6) <==> code6 in Codes(after)
  {
    HasCode6InCodes(after, code6);
    HasCode6InCodes(songs, code6);
    HasCode6InCodes(more, code6);
  }

  lemma InsertPassHas(songs: seq<Entry>, updates: seq<Entry>, dropped: seq<bool>, n: nat, less: Less, code6: U32)
    requires n <= |updates| == |dropped|
    ensures HasCode6(InsertPass(songs, updates, dropped, n, less).songs, code6)
       <==> HasCode6(songs, code6) || HasCode6(Accepted(songs, updates, dropped, n), code6)
  {
    InsertPassConserves(songs, updates, dropped, n, less);
    ConservedHas(songs, Accepted(songs, updates, dropped, n), InsertPass(songs, updates, dropped, n, less).songs,
      code6);
  }

  lemma HasCode6InCodes(songs: seq<Entry>, code6: U32)
    ensures HasCode6(songs, code6) <==> code6 in Codes(songs)
  {}

  lemma InsertDistinct(songs: seq<Entry>, at: nat, x: Entry)
    requires at <= |songs| && DistinctCodes(songs) && x.info.code6 !in Codes(songs)
    ensures DistinctCodes(Insert(songs, at, x))
  {
    assert forall j | 0 <= j < |songs| :: songs[j].info.code6 in Codes(songs);
  }

  lemma {:induction false} InsertPassDistinct(
    songs: seq<Entry>, updates: seq<Entry>, dropped: seq<bool>, n: nat, less: Less)
    requires n <= |updates| == |dropped| && DistinctCodes(songs)
    ensures DistinctCodes(InsertPass(songs, updates, dropped, n, less).songs)
  {
    if n > 0 {
      var run := InsertPass(songs, updates, dropped, n - 1, less);
      InsertPassDistinct(songs, updates, dropped, n - 1, less);
      if !HasCode6(run.songs, updates[n - 1].info.code6) {
        InsertDistinct(run.songs, PlaceSong(run.songs, updates[n - 1], run.cursor, less), updates[n - 1]);
      }
    }
  }

  /** `kept` is `songs` at the increasing positions `at`. */
  ghost predicate SubTable(kept: seq<Entry>, songs: seq<Entry>, at: seq<nat>)
  {
    && |at| == |kept|
    && (forall k | 0 <= k < |at| :: at[k] < |songs| && kept[k] == songs[at[k]])
    && (forall k, l | 0 <= k < l < |at| :: at[k] < at[l])
  }

  lemma SubTableRemove(kept: seq<Entry>, songs: seq<Entry>, at: seq<nat>, j: nat)
    requires SubTable(kept, songs, at) && j < |kept|
    ensures SubTable(kept[..j] + kept[j + 1..], songs, at[..j] + at[j + 1..])
  {}

  lemma DeleteFirstKeeps(kept: seq<Entry>, songs: seq<Entry>, at: seq<nat>, u: Entry) returns (after: seq<nat>)
    requires SubTable(kept, songs, at)
    ensures SubTable(DeleteFirst(kept, u.info.code5, u.info.abc), songs, after) && |at| <= |after| + 1
  {
    hide SubTable;
    SubTableSize(kept, songs, at);
    var j := FirstByCode5(kept, u.info.code5, u.info.abc);
    after := at;
    if j < |kept| {
      SubTableRemove(kept, songs, at, j);
      assert Remove(kept, j) == kept[..j] + kept[j + 1..];
      after := at[..j] + at[j + 1..];
    }
  }

  lemma SubTableSize(kept: seq<Entry>, songs: seq<Entry>, at: seq<nat>)
    requires SubTable(kept, songs, at)
    ensures |at| == |kept|
  {}

  lemma SubTableAll(songs: seq<Entry>)
    ensures SubTable(songs, songs, seq(|songs|, i => i))
  {}

  /** The deletion pass keeps a subsequence, and loses at most one song for each mark. */
  lemma {:induction false} DeletePassKeeps(
    songs: seq<Entry>, updates: seq<Entry>, dropped: seq<bool>, n: nat) returns (at: seq<nat>)
    requires n <= |updates| == |dropped|
    ensures SubTable(DeletePass(songs, updates, dropped, n), songs, at)
    ensures |songs| <= |at| + multiset(dropped[..n])[true]
  {
    hide SubTable, DeleteFirst;
    if n == 0 {
      SubTableAll(songs);
      at := seq(|songs|, i => i);
    } else {
      at := DeletePassKeeps(songs, updates, dropped, n - 1);
      assert dropped[..n] == dropped[..n - 1] + [dropped[n - 1]];
      if dropped[n - 1] {
        at := DeleteFirstKeeps(DeletePass(songs, updates, dropped, n - 1), songs, at, updates[n - 1]);
      }
    }
  }

  // ---- what the deletion pass deletes

  type PairCode = (U32, U4)

  /** The code and ABC type by which a song is deleted. */
  function PairOf(e: Entry): PairCode { (e.info.code5, e.info.abc) }

  ghost predicate DistinctPairs(songs: seq<Entry>)
  {
    forall i, j | 0 <= i < j < |songs| :: PairOf(songs[i]) != PairOf(songs[j])
  }

  /** The pairs marked for deletion among the first n update songs. */
  ghost function MarkedPairs(updates: seq<Entry>, dropped: seq<bool>, n: nat): set<PairCode>
    requires n <= |updates| == |dropped|
  {
    if n == 0 then {}
    else MarkedPairs(updates, dropped, n - 1) + if dropped[n - 1] then {PairOf(updates[n - 1])} else {}
  }

  /** The songs whose pair is not among pairs, in order. */
  ghost function Without(songs: seq<Entry>, pairs: set<PairCode>): seq<Entry>
  {
    if |songs| == 0 then []
    else if PairOf(songs[0]) in pairs then Without(songs[1..], pairs)
    else [songs[0]] + Without(songs[1..], pairs)
  }

  lemma {:induction false} WithoutBoth(songs: seq<Entry>, a: set<PairCode>, b: set<PairCode>)
    ensures Without(Without(songs, a), b) == Without(songs, a + b)
  {
    if |songs| > 0 {
      WithoutBoth(songs[1..], a, b);
      var rest := Without(songs[1..], a);
      assert ([songs[0]] + rest)[1..] == rest;
    }
  }

  lemma {:induction false} WithoutNone(songs: seq<Entry>, pairs: set<PairCode>)
    requires forall j | 0 <= j < |songs| :: PairOf(songs[j]) !in pairs
    ensures Without(songs, pairs) == songs
  {
    if |songs| > 0 { WithoutNone(songs[1..], pairs); }
  }

  lemma {:induction false} WithoutConcat(a: seq<Entry>, b: seq<Entry>, pairs: set<PairCode>)
    ensures Without(a + b, pairs) == Without(a, pairs) + Without(b, pairs)
  {
    if |a| == 0 {
      assert a + b == b;
    } else {
      assert (a + b)[1..] == a[1..] + b;
      WithoutConcat(a[1..], b, pairs);
    }
  }

  /** Among distinct pairs, removing the first match removes every match. */
  lemma DeleteFirstIsWithout(songs: seq<Entry>, u: Entry)
    requires DistinctPairs(songs)
    ensures DeleteFirst(songs, u.info.code5, u.info.abc) == Without(songs, {PairOf(u)})
  {
    hide Without, Remove, DistinctPairs;
    var j := FirstByCode5(songs, u.info.code5, u.info.abc);
    if j == |songs| {
      WithoutNone(songs, {PairOf(u)});
    } else {
      assert PairOf(songs[j]) == PairOf(u);
      PairOnce(songs, j);
      WithoutRemove(songs, j, {PairOf(u)});
    }
  }

  lemma PairOnce(songs: seq<Entry>, j: nat)
    requires DistinctPairs(songs) && j < |songs|
    ensures forall k | 0 <= k < |songs| && k != j :: PairOf(songs[k]) != PairOf(songs[j])
  {
    forall k | 0 <= k < |songs| && k != j
      ensures PairOf(songs[k]) != PairOf(songs[j])
    {
      if k < j { assert PairOf(songs[k]) != PairOf(songs[j]); } else { assert PairOf(songs[j]) != PairOf(songs[k]); }
    }
  }

  lemma WithoutRemove(songs: seq<Entry>, j: nat, pairs: set<PairCode>)
    requires j < |songs| && PairOf(songs[j]) in pairs
    requires forall k | 0 <= k < |songs| && k != j :: PairOf(songs[k]) !in pairs
    ensures Without(songs, pairs) == Remove(songs, j)
  {
    hide Without, PairOf;
    var l, x, r := songs[..j], songs[j], songs[j + 1..];
    assert songs == l + ([x] + r) && Remove(songs, j) == l + r;
    assert forall k | 0 <= k < |r| :: r[k] == songs[j + 1 + k];
    WithoutConcat(l, [x] + r, pairs);
    WithoutConcat([x], r, pairs);
    WithoutNone(l, pairs);
    WithoutNone(r, pairs);
    WithoutOne(x, pairs);
  }

  lemma WithoutOne(x: Entry, pairs: set<PairCode>)
    ensures Without([x], pairs) == if PairOf(x) in pairs then [] else [x]
  {
    assert Without([x][1..], pairs) == [];
  }

  lemma SubTablePairs(kept: seq<Entry>, songs: seq<Entry>, at: seq<nat>)
    requires SubTable(kept, songs, at) && DistinctPairs(songs)
    ensures DistinctPairs(kept)
  {
    forall i, j | 0 <= i < j < |kept|
      ensures PairOf(kept[i]) != PairOf(kept[j])
    {
      assert at[i] < at[j] && kept[i] == songs[at[i]] && kept[j] == songs[at[j]];
    }
  }

  /** If no two songs share code and ABC type, the deletion pass leaves exactly the songs that no
      mark names, in their order. */
  lemma {:induction false} DeletePassDeletes(songs: seq<Entry>, updates: seq<Entry>, dropped: seq<bool>, n: nat)
    requires n <= |updates| == |dropped| && DistinctPairs(songs)
    ensures DeletePass(songs, updates, dropped, n) == Without(songs, MarkedPairs(updates, dropped, n))
  {
    hide Without, DeleteFirst, DistinctPairs, SubTable;
    if n == 0 {
      WithoutNone(songs, {});
    } else {
      DeletePassDeletes(songs, updates, dropped, n - 1);
      var before := DeletePass(songs, updates, dropped, n - 1);
      var at := DeletePassKeeps(songs, updates, dropped, n - 1);
      SubTablePairs(before, songs, at);
      DeleteFirstIsWithout(before, updates[n - 1]);
      WithoutBoth(songs, MarkedPairs(updates, dropped, n - 1), {PairOf(updates[n - 1])});
      assert MarkedPairs(updates, dropped, n - 1) + {} == MarkedPairs(updates, dropped, n - 1);
    }
  }

  type Relation = (Entry, Entry) -> bool

  ghost predicate Pairwise(a: seq<Entry>, b: seq<Entry>, rel: Relation)
  {
    && |a| == |b|
    && forall j | 0 <= j < |a| :: rel(a[j], b[j])
  }

  ghost predicate KeepsCodes(rel: Relation)
  {
    forall e, f :: rel(e, f) ==>
      e.info.code5 == f.info.code5 && e.info.abc == f.info.abc && e.info.code6 == f.info.code6
  }

  lemma FirstByCode5Pairwise(songs: seq<Entry>, after: seq<Entry>, rel: Relation, code5: U32, abc: U4)
    requires Pairwise(songs, after, rel) && KeepsCodes(rel)
    ensures FirstByCode5(songs, code5, abc) == FirstByCode5(after, code5, abc)
  {
    assert forall j | 0 <= j < |songs| :: rel(songs[j], after[j]);
  }

  lemma DeleteFirstPairwise(songs: seq<Entry>, after: seq<Entry>, rel: Relation, code5: U32, abc: U4)
    requires Pairwise(songs, after, rel) && KeepsCodes(rel)
    ensures Pairwise(DeleteFirst(songs, code5, abc), DeleteFirst(after, code5, abc), rel)
  {
    FirstByCode5Pairwise(songs, after, rel, code5, abc);
  }

  /** The deletion pass looks at codes only. */
  lemma {:induction false} DeletePassPairwise(
    songs: seq<Entry>, after: seq<Entry>, rel: Relation, updates: seq<Entry>, dropped: seq<bool>, n: nat)
    requires n <= |updates| == |dropped|
    requires Pairwise(songs, after, rel) && KeepsCodes(rel)
    ensures Pairwise(DeletePass(songs, updates, dropped, n), DeletePass(after, updates, dropped, n), rel)
  {
    if n > 0 {
      DeletePassPairwise(songs, after, rel, updates, dropped, n - 1);
      DeleteFirstPairwise(
        DeletePass(songs, updates, dropped, n - 1), DeletePass(after, updates, dropped, n - 1), rel,
        updates[n - 1].info.code5, updates[n - 1].info.abc);
    }
  }

  lemma PairwiseCodes(a: seq<Entry>, b: seq<Entry>, rel: Relation)
    requires Pairwise(a, b, rel) && KeepsCodes(rel)
    ensures Codes(a) == Codes(b)
    ensures DistinctCodes(a) ==> DistinctCodes(b)
  {
    assert forall j | 0 <= j < |a| :: rel(a[j], b[j]) && a[j].info.code6 == b[j].info.code6;
  }

  lemma AcceptOnePairwise(
    songs: seq<Entry>, a: seq<Entry>, u: Entry, after: seq<Entry>, b: seq<Entry>, v: Entry, rel: Relation, drop: bool)
    requires Codes(songs) == Codes(after) && rel(u, v)
    requires Pairwise(a, b, rel) && KeepsCodes(rel)
    ensures Pairwise(AcceptOne(songs, a, u, drop), AcceptOne(after, b, v, drop), rel)
  {
    assert u.info.code6 == v.info.code6;
    PairwiseCodes(a, b, rel);
    HasCode6InCodes(songs, u.info.code6);
    HasCode6InCodes(after, u.info.code6);
    HasCode6InCodes(a, u.info.code6);
    HasCode6InCodes(b, u.info.code6);
  }

  /** So does the choice of the songs to store. */
  lemma {:induction false} AcceptedPairwise(
    songs: seq<Entry>, updates: seq<Entry>, after: seq<Entry>, linked: seq<Entry>, rel: Relation, dropped: seq<bool>,
    n: nat)
    requires n <= |updates| == |linked| == |dropped|
    requires Pairwise(updates, linked, rel) && KeepsCodes(rel) && Codes(songs) == Codes(after)
    ensures Pairwise(Accepted(songs, updates, dropped, n), Accepted(after, linked, dropped, n), rel)
  {
    if n > 0 {
      AcceptedPairwise(songs, updates, after, linked, rel, dropped, n - 1);
      assert rel(updates[n - 1], linked[n - 1]);
      AcceptOnePairwise(
        songs, Accepted(songs, updates, dropped, n - 1), updates[n - 1],
        after, Accepted(after, linked, dropped, n - 1), linked[n - 1], rel, dropped[n - 1]);
    }
  }

  ghost function Following(from: seq<Artist>, to: seq<Artist>): Relation
  {
    (e, f) => EntryFollows(e, from, f, to)
  }

  /** f is the update song e with its slots re-pointed: they name the same singers in `to`. */
  ghost predicate EntryLinks(e: Entry, from: seq<Artist>, f: Entry, to: seq<Artist>)
  {
    && f == e.(singers := f.singers, authors := f.authors)
    && SlotsLink(e.singers, from, f.singers, to)
    && SlotsLink(e.authors, from, f.authors, to)
  }

  ghost function Linking(from: seq<Artist>, to: seq<Artist>): Relation
  {
    (e, f) => EntryLinks(e, from, f, to)
  }

  // ---- the whole merge

  ghost predicate Mergeable(cat: Catalogue, update: Catalogue, dropped: seq<bool>)
  {
    && |dropped| == |update.songs|
    && |cat.artists| + |update.artists| < NO_ARTIST
    && SongsInTable(cat.songs, |cat.artists|)
    && SongsInTable(update.songs, |update.artists|)
  }

  lemma InTableReadable(update: Catalogue)
    requires SongsInTable(update.songs, |update.artists|)
    ensures UpdateReadable(update)
  {
    forall i | 0 <= i < |update.songs|
      ensures SlotsReadable(update.songs[i], update.artists)
    {
      var u := update.songs[i];
      assert InTable(u.singers, |update.artists|) && InTable(u.authors, |update.artists|);
      if Live(u.singers) > 0 { assert u.singers[0] < |update.artists|; }
      if Live(u.authors) > 0 { assert u.authors[0] < |update.artists|; }
    }
  }

  /** What the artist half of a merge hands to the song half. */
  lemma MergedArtists(cat: Catalogue, update: Catalogue, dropped: seq<bool>, less: Less)
    requires Mergeable(cat, update, dropped)
    ensures
      var mid := MergeArtists(cat, update.artists, |update.artists|, less).cat;
      && |mid.artists| < NO_ARTIST
      && Pairwise(cat.songs, mid.songs, Following(cat.artists, mid.artists))
      && forall i | 0 <= i < |update.artists| :: HasSinger(mid.artists, update.artists[i].singerIdx)
  {
    var n := |update.artists|;
    MergeArtistsFollows(cat, update.artists, n, less);
    forall i | 0 <= i < n
      ensures HasSinger(MergeArtists(cat, update.artists, n, less).cat.artists, update.artists[i].singerIdx)
    {
      MergeArtistsHasSinger(cat, update.artists, n, i, less);
    }
  }

  lemma RelinkAllLinks(updates: seq<Entry>, from: seq<Artist>, to: seq<Artist>)
    requires forall i | 0 <= i < |updates| :: SlotsReadable(updates[i], from)
    requires SongsInTable(updates, |from|) && |to| < NO_ARTIST
    requires forall i | 0 <= i < |from| :: HasSinger(to, from[i].singerIdx)
    ensures Pairwise(updates, RelinkAll(updates, from, to), Linking(from, to))
  {
    forall j | 0 <= j < |updates|
      ensures EntryLinks(updates[j], from, RelinkAll(updates, from, to)[j], to)
    {
      RelinkLinks(updates[j].singers, from, to);
      RelinkLinks(updates[j].authors, from, to);
    }
  }

  /** The two inputs of the song half, as the update wrote them and as the merged artist table
      makes them: same songs kept, same songs accepted. */
  lemma SongHalf(cat: Catalogue, update: Catalogue, dropped: seq<bool>, less: Less)
    requires Mergeable(cat, update, dropped)
    ensures UpdateReadable(update)
    ensures
      var n := |update.songs|;
      var mid := MergeArtists(cat, update.artists, |update.artists|, less).cat;
      var kept, moved := DeletePass(cat.songs, update.songs, dropped, n),
        DeletePass(mid.songs, update.songs, dropped, n);
      var linked := RelinkAll(update.songs, update.artists, mid.artists);
      && Pairwise(kept, moved, Following(cat.artists, mid.artists))
      && Codes(kept) == Codes(moved)
      && Pairwise(Accepted(kept, update.songs, dropped, n), Accepted(moved, linked, dropped, n),
                  Linking(update.artists, mid.artists))
  {
    InTableReadable(update);
    MergedArtists(cat, update, dropped, less);
    var n := |update.songs|;
    var mid := MergeArtists(cat, update.artists, |update.artists|, less).cat;
    var rel := Following(cat.artists, mid.artists);
    DeletePassPairwise(cat.songs, mid.songs, rel, update.songs, dropped, n);
    var kept, moved := DeletePass(cat.songs, update.songs, dropped, n), DeletePass(mid.songs, update.songs, dropped, n);
    PairwiseCodes(kept, moved, rel);
    var linked := RelinkAll(update.songs, update.artists, mid.artists);
    RelinkAllLinks(update.songs, update.artists, mid.artists);
    AcceptedPairwise(kept, update.songs, moved, linked, Linking(update.artists, mid.artists), dropped, n);
  }

  lemma ConservedRest(songs: seq<Entry>, more: seq<Entry>, after: seq<Entry>)
    requires Conserved(songs, more, after)
    ensures multiset(Pick(after, Codes(songs), false)) == multiset(more)
  {
    PickSplits(after, Codes(songs));
    var rest := multiset(Pick(after, Codes(songs), false));
    assert rest == (multiset(songs) + rest) - multiset(songs);
    assert multiset(more) == (multiset(songs) + multiset(more)) - multiset(songs);
  }

  /** Old songs after a whole merge: exactly the undeleted ones, in their old order, each with
      its strings, clips, codes and artists. */
  lemma MergeKeepsOldSongs(cat: Catalogue, update: Catalogue, dropped: seq<bool>, less: Less)
    requires Mergeable(cat, update, dropped)
    ensures UpdateReadable(update)
    ensures
      var after := Merge(cat, update, dropped, less);
      var kept := DeletePass(cat.songs, update.songs, dropped, |update.songs|);
      Pairwise(kept, Pick(after.songs, Codes(kept), true), Following(cat.artists, after.artists))
  {
    SongHalf(cat, update, dropped, less);
    var mid := MergeArtists(cat, update.artists, |update.artists|, less).cat;
    var moved := DeletePass(mid.songs, update.songs, dropped, |update.songs|);
    InsertPassConserves(moved, RelinkAll(update.songs, update.artists, mid.artists), dropped, |update.songs|, less);
  }

  /** New songs after a whole merge: up to order, the accepted update songs, each with slots that
      name in the merged table the singers they named in the update. */
  lemma MergeAddsNewSongs(
    cat: Catalogue, update: Catalogue, dropped: seq<bool>, less: Less) returns (stored: seq<Entry>)
    requires Mergeable(cat, update, dropped)
    ensures UpdateReadable(update)
    ensures
      var after := Merge(cat, update, dropped, less);
      var kept := DeletePass(cat.songs, update.songs, dropped, |update.songs|);
      var accepted := Accepted(kept, update.songs, dropped, |update.songs|);
      && Pairwise(accepted, stored, Linking(update.artists, after.artists))
      && multiset(Pick(after.songs, Codes(kept), false)) == multiset(stored)
      && |after.songs| == |kept| + |accepted|
  {
    SongHalf(cat, update, dropped, less);
    var n := |update.songs|;
    var mid := MergeArtists(cat, update.artists, |update.artists|, less).cat;
    var moved := DeletePass(mid.songs, update.songs, dropped, n);
    var linked := RelinkAll(update.songs, update.artists, mid.artists);
    stored := Accepted(moved, linked, dropped, n);
    InsertPassConserves(moved, linked, dropped, n, less);
    ConservedRest(moved, stored, Merge(cat, update, dropped, less).songs);
  }

  /** A merge never gives two songs the same code. */
  lemma MergeKeepsCodesDistinct(cat: Catalogue, update: Catalogue, dropped: seq<bool>, less: Less)
    requires Mergeable(cat, update, dropped) && DistinctCodes(cat.songs)
    ensures UpdateReadable(update)
    ensures DistinctCodes(Merge(cat, update, dropped, less).songs)
  {
    InTableReadable(update);
    MergedArtists(cat, update, dropped, less);
    var n := |update.songs|;
    var mid := MergeArtists(cat, update.artists, |update.artists|, less).cat;
    PairwiseCodes(cat.songs, mid.songs, Following(cat.artists, mid.artists));
    var moved := DeletePass(mid.songs, update.songs, dropped, n);
    var at := DeletePassKeeps(mid.songs, update.songs, dropped, n);
    InsertPassDistinct(moved, RelinkAll(update.songs, update.artists, mid.artists), dropped, n, less);
  }

  lemma PairwiseInTable(a: seq<Entry>, b: seq<Entry>, rel: Relation, n: nat)
    requires Pairwise(a, b, rel)
    requires forall e: Entry, f: Entry :: rel(e, f) ==> InTable(f.singers, n) && InTable(f.authors, n)
    ensures SongsInTable(b, n)
  {
    forall j | 0 <= j < |b|
      ensures InTable(b[j].singers, n) && InTable(b[j].authors, n)
    {
      assert rel(a[j], b[j]);
    }
  }

  lemma ConservedInTable(songs: seq<Entry>, more: seq<Entry>, after: seq<Entry>, n: nat)
    requires Conserved(songs, more, after) && SongsInTable(songs, n) && SongsInTable(more, n)
    ensures SongsInTable(after, n)
  {
    forall j | 0 <= j < |after|
      ensures InTable(after[j].singers, n) && InTable(after[j].authors, n)
    {
      assert after[j] in multiset(after);
      assert after[j] in songs || after[j] in more;
    }
  }

  /** The merged index can be merged into again: every slot in use leads to an artist of its table. */
  lemma MergeInTable(cat: Catalogue, update: Catalogue, dropped: seq<bool>, less: Less)
    requires Mergeable(cat, update, dropped)
    ensures UpdateReadable(update)
    ensures var after := Merge(cat, update, dropped, less); SongsInTable(after.songs, |after.artists|)
  {
    SongHalf(cat, update, dropped, less);
    var n := |update.songs|;
    var mid := MergeArtists(cat, update.artists, |update.artists|, less).cat;
    var kept, moved := DeletePass(cat.songs, update.songs, dropped, n), DeletePass(mid.songs, update.songs, dropped, n);
    var linked := RelinkAll(update.songs, update.artists, mid.artists);
    PairwiseInTable(kept, moved, Following(cat.artists, mid.artists), |mid.artists|);
    PairwiseInTable(
      Accepted(kept, update.songs, dropped, n), Accepted(moved, linked, dropped, n),
      Linking(update.artists, mid.artists), |mid.artists|);
    InsertPassConserves(moved, linked, dropped, n, less);
    ConservedInTable(moved, Accepted(moved, linked, dropped, n), Merge(cat, update, dropped, less).songs,
      |mid.artists|);
  }
}
