/** The search that resumes after the last insertion against the textbook stable merge. */
module SortedMerge {
  import opened Bytes
  import opened Catalogue
  import opened Conservation

  ghost predicate Chains(less: Less, a: Str, b: Str, c: Str)
  {
    !less(b, a) && !less(c, b) ==> !less(c, a)
  }

  /** less is the strict part of a total preorder. */
  ghost predicate TotalPreorder(less: Less)
  {
    && (forall a, b :: less(a, b) ==> !less(b, a))
    && (forall a, b, c :: Chains(less, a, b, c))
  }

  ghost predicate Sorted(songs: seq<Entry>, less: Less)
  {
    forall i, j | 0 <= i < j < |songs| :: !less(songs[j].name, songs[i].name)
  }

  /** Of two equal names, the one from a comes first. */
  function StableMerge(a: seq<Entry>, b: seq<Entry>, less: Less): seq<Entry>
  {
    if |a| == 0 then b
    else if |b| == 0 then a
    else if less(b[0].name, a[0].name) then [b[0]] + StableMerge(a, b[1..], less)
    else [a[0]] + StableMerge(a[1..], b, less)
  }

  /** Insertion at the upper bound, searched from the front. */
  function InsertUpper(songs: seq<Entry>, x: Entry, less: Less): seq<Entry>
  {
    Insert(songs, FindSong(songs, x.name, 0, less), x)
  }

  lemma InsertUpperCons(h: Entry, songs: seq<Entry>, x: Entry, less: Less)
    requires !less(x.name, h.name)
    ensures InsertUpper([h] + songs, x, less) == [h] + InsertUpper(songs, x, less)
  {
    var all := [h] + songs;
    var at, k := FindSong(all, x.name, 0, less), FindSong(songs, x.name, 0, less);
    assert at == k + 1 by {
      assert all[0] == h;
      assert forall i | 0 < i < |all| :: all[i] == songs[i - 1];
      if k < |songs| { assert all[k + 1] == songs[k]; }
    }
    assert all[..at] == [h] + songs[..k] && all[at..] == songs[k..];
  }

  lemma {:induction false} StableMergeAppend(a: seq<Entry>, b: seq<Entry>, x: Entry, less: Less)
    requires TotalPreorder(less)
    requires forall k | 0 <= k < |b| :: !less(x.name, b[k].name)
    ensures StableMerge(a, b + [x], less) == InsertUpper(StableMerge(a, b, less), x, less)
    decreases |a| + |b|
  {
    if |a| == 0 {
      assert FindSong(b, x.name, 0, less) == |b|;
    } else if |b| == 0 {
      assert b + [x] == [x];
      assert a == [a[0]] + a[1..];
      if !less(x.name, a[0].name) {
        StableMergeAppend(a[1..], b, x, less);
        InsertUpperCons(a[0], a[1..], x, less);
      }
    } else if less(b[0].name, a[0].name) {
      assert (b + [x])[1..] == b[1..] + [x];
      StableMergeAppend(a, b[1..], x, less);
      InsertUpperCons(b[0], StableMerge(a, b[1..], less), x, less);
    } else {
      StableMergeAppend(a[1..], b, x, less);
      assert Chains(less, a[0].name, b[0].name, x.name);
      InsertUpperCons(a[0], StableMerge(a[1..], b, less), x, less);
    }
  }

  lemma InsertUpperSorted(songs: seq<Entry>, x: Entry, less: Less)
    requires TotalPreorder(less) && Sorted(songs, less)
    ensures Sorted(InsertUpper(songs, x, less), less)
  {
    var at := FindSong(songs, x.name, 0, less);
    forall j | at <= j < |songs|
      ensures !less(songs[j].name, x.name)
    {
      assert Chains(less, x.name, songs[at].name, songs[j].name);
    }
  }

  /** Songs that are not searched a place but put at the end of the table. */
  predicate Late(e: Entry) { e.info.language >= 3 }

  /** The searched songs come in the order of their names. */
  ghost predicate SearchedInOrder(accepted: seq<Entry>, less: Less)
  {
    forall a, b | 0 <= a < b < |accepted| && !Late(accepted[a]) && !Late(accepted[b]) ::
      !less(accepted[b].name, accepted[a].name)
  }

  lemma InOrderPrefix(accepted: seq<Entry>, x: Entry, less: Less)
    requires SearchedInOrder(accepted + [x], less)
    ensures SearchedInOrder(accepted, less)
    ensures !Late(x) ==> forall a | 0 <= a < |accepted| && !Late(accepted[a]) :: !less(x.name, accepted[a].name)
  {
    var all := accepted + [x];
    assert all[|accepted|] == x && forall a | 0 <= a < |accepted| :: all[a] == accepted[a];
  }

  ghost predicate IsSearched(accepted: seq<Entry>, e: Entry)
  {
    exists a | 0 <= a < |accepted| :: !Late(accepted[a]) && accepted[a] == e
  }

  // ---- what the loop stores, put in one by one at the upper bound

  /** The accepted songs put into the table one after the other, each behind its equals. */
  function StableInsert(songs: seq<Entry>, accepted: seq<Entry>, less: Less): seq<Entry>
    decreases |accepted|
  {
    if |accepted| == 0 then songs
    else InsertUpper(StableInsert(songs, accepted[..|accepted| - 1], less), accepted[|accepted| - 1], less)
  }

  lemma StableInsertNext(songs: seq<Entry>, accepted: seq<Entry>, x: Entry, less: Less)
    ensures StableInsert(songs, accepted + [x], less) == InsertUpper(StableInsert(songs, accepted, less), x, less)
  {
    assert (accepted + [x])[..|accepted|] == accepted;
  }

  /** If the accepted songs come in order, that is the textbook merge. */
  lemma {:induction false} StableInsertMerges(songs: seq<Entry>, accepted: seq<Entry>, less: Less)
    requires TotalPreorder(less) && Sorted(accepted, less)
    ensures StableInsert(songs, accepted, less) == StableMerge(songs, accepted, less)
    decreases |accepted|
  {
    if |accepted| > 0 {
      var before, x := accepted[..|accepted| - 1], accepted[|accepted| - 1];
      assert accepted == before + [x];
      StableInsertMerges(songs, before, less);
      StableInsertNext(songs, before, x, less);
      StableMergeAppend(songs, before, x, less);
    } else if |songs| == 0 {
      assert songs == accepted;
    }
  }

  lemma {:induction false} StableInsertSorted(songs: seq<Entry>, accepted: seq<Entry>, less: Less)
    requires TotalPreorder(less) && Sorted(songs, less)
    ensures Sorted(StableInsert(songs, accepted, less), less)
    decreases |accepted|
  {
    if |accepted| > 0 {
      StableInsertSorted(songs, accepted[..|accepted| - 1], less);
      InsertUpperSorted(StableInsert(songs, accepted[..|accepted| - 1], less), accepted[|accepted| - 1], less);
    }
  }

  // ---- when the loop does the same

  /** x, stored after `accepted`, belongs where the loop can put it: a late song behind everything, a
      searched one not in front of the table's head, which is never searched. */
  ghost predicate Belongs(songs: seq<Entry>, accepted: seq<Entry>, x: Entry, less: Less)
  {
    if Late(x) then
      && (forall m | 0 <= m < |songs| :: !less(x.name, songs[m].name))
      && (forall a | 0 <= a < |accepted| :: !less(x.name, accepted[a].name))
    else if |songs| > 0 then !less(x.name, songs[0].name)
    else |accepted| > 0 ==> !less(x.name, accepted[0].name)
  }

  ghost predicate AllBelong(songs: seq<Entry>, accepted: seq<Entry>, less: Less)
  {
    forall b | 0 <= b < |accepted| :: Belongs(songs, accepted[..b], accepted[b], less)
  }

  lemma AllBelongNext(songs: seq<Entry>, accepted: seq<Entry>, x: Entry, less: Less)
    ensures AllBelong(songs, accepted + [x], less)
       <==> AllBelong(songs, accepted, less) && Belongs(songs, accepted, x, less)
  {
    hide Belongs;
    var all := accepted + [x];
    assert all[|accepted|] == x && all[..|accepted|] == accepted;
    assert forall b | 0 <= b < |accepted| :: all[b] == accepted[b] && all[..b] == accepted[..b];
  }

  /** The head of the table and its cursor, after the songs `accepted` were stored. */
  ghost predicate CursorOk(songs: seq<Entry>, accepted: seq<Entry>, run: SongRun)
  {
    && |run.songs| == |songs| + |accepted|
    && run.cursor <= |run.songs| && (run.songs != [] ==> run.cursor < |run.songs|)
    && (0 < run.cursor < |run.songs| ==> IsSearched(accepted, run.songs[run.cursor]))
    && (run.songs != [] ==> run.songs[0] == if |songs| > 0 then songs[0] else accepted[0])
  }

  lemma CursorStep(songs: seq<Entry>, accepted: seq<Entry>, run: SongRun, n: nat, x: Entry, less: Less)
    requires CursorOk(songs, accepted, run) && !HasCode6(run.songs, x.info.code6)
    ensures CursorOk(songs, accepted + [x], InsertRound(run, n, x, false, less))
  {
    var at, all := PlaceSong(run.songs, x, run.cursor, less), accepted + [x];
    assert Insert(run.songs, at, x)[at] == x && all[|accepted|] == x;
    if 0 < run.cursor < |run.songs| {
      var a :| 0 <= a < |accepted| && !Late(accepted[a]) && accepted[a] == run.songs[run.cursor];
      assert all[a] == accepted[a];
    }
  }

  /** On a sorted table the resumed search finds the upper bound, if the head stays the head. */
  lemma ResumedSearchIsFullSearch(songs: seq<Entry>, accepted: seq<Entry>, run: SongRun, x: Entry, less: Less)
    requires TotalPreorder(less) && Sorted(run.songs, less) && CursorOk(songs, accepted, run)
    requires SearchedInOrder(accepted + [x], less) && Belongs(songs, accepted, x, less) && !Late(x)
    ensures PlaceSong(run.songs, x, run.cursor, less) == FindSong(run.songs, x.name, 0, less)
  {
    if |run.songs| > 0 {
      var c := run.cursor;
      InOrderPrefix(accepted, x, less);
      assert !less(x.name, run.songs[c].name);
      forall i | 0 <= i <= c
        ensures !less(x.name, run.songs[i].name)
      {
        assert Chains(less, run.songs[i].name, run.songs[c].name, x.name);
      }
    }
  }

  lemma ConservedSame(songs: seq<Entry>, accepted: seq<Entry>, table: seq<Entry>)
    requires Conserved(songs, accepted, table)
    ensures multiset(table) == multiset(songs) + multiset(accepted)
  {}

  lemma LateAtUpperBound(songs: seq<Entry>, accepted: seq<Entry>, table: seq<Entry>, x: Entry, less: Less)
    requires Conserved(songs, accepted, table) && Late(x)
    ensures Belongs(songs, accepted, x, less) <==> FindSong(table, x.name, 0, less) == |table|
  {
    hide Conserved;
    ConservedSame(songs, accepted, table);
    forall p | 0 <= p < |table|
      ensures table[p] in songs || table[p] in accepted
    {
      assert table[p] in multiset(table);
    }
    forall e | e in songs || e in accepted
      ensures e in table
    {
      assert e in multiset(songs) + multiset(accepted);
      assert e in multiset(table);
    }
    if Belongs(songs, accepted, x, less) {
      assert forall p | 0 <= p < |table| :: !less(x.name, table[p].name);
    }
    if FindSong(table, x.name, 0, less) == |table| {
      forall e | e in songs || e in accepted
        ensures !less(x.name, e.name)
      {
        var p :| 0 <= p < |table| && table[p] == e;
      }
    }
  }

  lemma InsertUnsorted(songs: seq<Entry>, at: nat, x: Entry, less: Less)
    requires at <= |songs| && !Sorted(songs, less)
    ensures !Sorted(Insert(songs, at, x), less)
  {
    var i, j :| 0 <= i < j < |songs| && less(songs[j].name, songs[i].name);
    var t := Insert(songs, at, x);
    assert t[if i < at then i else i + 1] == songs[i] && t[if j < at then j else j + 1] == songs[j];
  }

  lemma UnsortedBy(table: seq<Entry>, at: nat, x: Entry, p: nat, less: Less)
    requires p < at <= |table| && less(x.name, table[p].name)
    ensures !Sorted(Insert(table, at, x), less)
  {
    var t := Insert(table, at, x);
    assert t[at] == x && t[p] == table[p];
  }

  /** One song more: the table stays sorted exactly when the song belongs where it is put. */
  lemma BelongsIff(songs: seq<Entry>, accepted: seq<Entry>, run: SongRun, x: Entry, less: Less)
    requires TotalPreorder(less) && Sorted(run.songs, less) && CursorOk(songs, accepted, run)
    requires SearchedInOrder(accepted + [x], less) && Conserved(songs, accepted, run.songs)
    ensures
      var after := Insert(run.songs, PlaceSong(run.songs, x, run.cursor, less), x);
      && (Sorted(after, less) <==> Belongs(songs, accepted, x, less))
      && (Belongs(songs, accepted, x, less) ==> after == InsertUpper(run.songs, x, less))
  {
    hide Sorted, Conserved, SearchedInOrder, TotalPreorder, Insert;
    var at := PlaceSong(run.songs, x, run.cursor, less);
    if Late(x) { LateAtUpperBound(songs, accepted, run.songs, x, less); }
    if Belongs(songs, accepted, x, less) {
      if !Late(x) { ResumedSearchIsFullSearch(songs, accepted, run, x, less); }
      InsertUpperSorted(run.songs, x, less);
    } else {
      UnsortedBy(run.songs, at, x, if Late(x) then FindSong(run.songs, x.name, 0, less) else 0, less);
    }
  }

  lemma LoopAtStart(songs: seq<Entry>, less: Less)
    ensures CursorOk(songs, [], SongRun(songs, 0, map[])) && AllBelong(songs, [], less)
  {}

  lemma {:induction false} InsertPassSortsIff(
    songs: seq<Entry>, updates: seq<Entry>, dropped: seq<bool>, n: nat, less: Less)
    requires n <= |updates| == |dropped| && TotalPreorder(less) && Sorted(songs, less)
    requires SearchedInOrder(Accepted(songs, updates, dropped, n), less)
    ensures
      var run, accepted := InsertPass(songs, updates, dropped, n, less), Accepted(songs, updates, dropped, n);
      && CursorOk(songs, accepted, run)
      && (Sorted(run.songs, less) <==> AllBelong(songs, accepted, less))
      && (AllBelong(songs, accepted, less) ==> run.songs == StableInsert(songs, accepted, less))
  {
    hide CursorOk, Sorted, AllBelong, Belongs, StableInsert, SearchedInOrder, TotalPreorder, HasCode6, InsertUpper,
         Insert;
    if n == 0 {
      LoopAtStart(songs, less);
      StableInsertNone(songs, less);
    } else {
      var accepted, u := Accepted(songs, updates, dropped, n - 1), updates[n - 1];
      var run := InsertPass(songs, updates, dropped, n - 1, less);
      InsertPassHas(songs, updates, dropped, n - 1, less, u.info.code6);
      if !dropped[n - 1] && !HasCode6(run.songs, u.info.code6) {
        InOrderPrefix(accepted, u, less);
        InsertPassSortsIff(songs, updates, dropped, n - 1, less);
        InsertPassConserves(songs, updates, dropped, n - 1, less);
        CursorStep(songs, accepted, run, n - 1, u, less);
        AllBelongNext(songs, accepted, u, less);
        StableInsertNext(songs, accepted, u, less);
        if Sorted(run.songs, less) {
          BelongsIff(songs, accepted, run, u, less);
        } else {
          InsertUnsorted(run.songs, PlaceSong(run.songs, u, run.cursor, less), u, less);
        }
      } else {
        InsertPassSortsIff(songs, updates, dropped, n - 1, less);
      }
    }
  }

  lemma StableInsertNone(songs: seq<Entry>, less: Less)
    ensures StableInsert(songs, [], less) == songs
  {}

  /** On a sorted table, with the searched songs in order: the insertion loop puts every accepted song at
      its upper bound, and leaves the table sorted, exactly when each belongs where the loop can put
      it. If the accepted songs are in order altogether, it is a stable merge. */
  lemma InsertPassMergesIff(songs: seq<Entry>, updates: seq<Entry>, dropped: seq<bool>, less: Less)
    requires |updates| == |dropped|
    requires TotalPreorder(less) && Sorted(songs, less)
    requires SearchedInOrder(Accepted(songs, updates, dropped, |updates|), less)
    ensures
      var after := InsertPass(songs, updates, dropped, |updates|, less).songs;
      var accepted := Accepted(songs, updates, dropped, |updates|);
      && (Sorted(after, less) <==> AllBelong(songs, accepted, less))
      && (after == StableInsert(songs, accepted, less) <==> AllBelong(songs, accepted, less))
      && (Sorted(accepted, less) ==>
          (after == StableMerge(songs, accepted, less) <==> AllBelong(songs, accepted, less)))
  {
    hide Sorted, AllBelong, StableInsert, StableMerge, SearchedInOrder, TotalPreorder, InsertPass, Accepted;
    var accepted := Accepted(songs, updates, dropped, |updates|);
    InsertPassSortsIff(songs, updates, dropped, |updates|, less);
    StableInsertSorted(songs, accepted, less);
    if Sorted(accepted, less) { StableInsertMerges(songs, accepted, less); }
  }

  /** When no accepted song is late and they come in order, that is a question of the first one only. */
  lemma SearchedBelongIff(songs: seq<Entry>, accepted: seq<Entry>, less: Less)
    requires TotalPreorder(less) && Sorted(accepted, less) && forall b | 0 <= b < |accepted| :: !Late(accepted[b])
    ensures AllBelong(songs, accepted, less)
       <==> (|songs| > 0 && |accepted| > 0 ==> !less(accepted[0].name, songs[0].name))
  {
    if |accepted| > 0 {
      var first := accepted[0];
      if AllBelong(songs, accepted, less) { assert Belongs(songs, accepted[..0], accepted[0], less); }
      forall b | 0 <= b < |accepted| && (|songs| > 0 ==> !less(first.name, songs[0].name))
        ensures Belongs(songs, accepted[..b], accepted[b], less)
      {
        if |songs| > 0 { assert Chains(less, songs[0].name, first.name, accepted[b].name); }
      }
    }
  }

  lemma {:induction false} DeletePassSorted(
    songs: seq<Entry>, updates: seq<Entry>, dropped: seq<bool>, n: nat, less: Less)
    requires n <= |updates| == |dropped| && Sorted(songs, less)
    ensures Sorted(DeletePass(songs, updates, dropped, n), less)
  {
    var at := DeletePassKeeps(songs, updates, dropped, n);
  }

  ghost predicate SameNames(a: seq<Entry>, b: seq<Entry>)
  {
    |a| == |b| && forall k | 0 <= k < |a| :: a[k].name == b[k].name && a[k].info == b[k].info
  }

  lemma PairwiseSameNames(a: seq<Entry>, b: seq<Entry>, rel: Relation)
    requires Pairwise(a, b, rel)
    requires forall e: Entry, f: Entry :: rel(e, f) ==> f == e.(singers := f.singers, authors := f.authors)
    ensures SameNames(a, b)
  {
    forall k | 0 <= k < |a|
      ensures a[k].name == b[k].name && a[k].info == b[k].info
    {
      assert rel(a[k], b[k]);
    }
  }

  lemma SameNamesBelong(a: seq<Entry>, b: seq<Entry>, x: Entry, c: seq<Entry>, d: seq<Entry>, y: Entry, less: Less)
    requires SameNames(a, c) && SameNames(b, d) && x.name == y.name && x.info == y.info
    ensures Belongs(a, b, x, less) <==> Belongs(c, d, y, less)
  {}

  lemma SameNamesAllBelong(a: seq<Entry>, b: seq<Entry>, c: seq<Entry>, d: seq<Entry>, less: Less)
    requires SameNames(a, c) && SameNames(b, d)
    ensures AllBelong(a, b, less) <==> AllBelong(c, d, less)
    ensures SearchedInOrder(b, less) <==> SearchedInOrder(d, less)
    ensures Sorted(a, less) <==> Sorted(c, less)
  {
    hide Belongs;
    forall k | 0 <= k < |b|
      ensures Belongs(a, b[..k], b[k], less) <==> Belongs(c, d[..k], d[k], less)
    {
      SameNamesBelong(a, b[..k], b[k], c, d[..k], d[k], less);
    }
  }

  /** The whole merge of a sorted index: sorted exactly when each accepted song belongs where the loop can
      put it among the songs kept. */
  lemma MergeSortedIff(cat: Catalogue, update: Catalogue, dropped: seq<bool>, less: Less)
    requires Mergeable(cat, update, dropped)
    requires TotalPreorder(less) && Sorted(cat.songs, less)
    requires
      var kept := DeletePass(cat.songs, update.songs, dropped, |update.songs|);
      SearchedInOrder(Accepted(kept, update.songs, dropped, |update.songs|), less)
    ensures UpdateReadable(update)
    ensures
      var kept := DeletePass(cat.songs, update.songs, dropped, |update.songs|);
      var accepted := Accepted(kept, update.songs, dropped, |update.songs|);
      Sorted(Merge(cat, update, dropped, less).songs, less) <==> AllBelong(kept, accepted, less)
  {
    hide Sorted, TotalPreorder, SearchedInOrder, AllBelong, DeletePass, Accepted, MergeArtists, RelinkAll, Pairwise,
         SameNames, StableInsert, StableMerge;
    SongHalf(cat, update, dropped, less);
    var n := |update.songs|;
    var mid := MergeArtists(cat, update.artists, |update.artists|, less).cat;
    var kept, moved := DeletePass(cat.songs, update.songs, dropped, n), DeletePass(mid.songs, update.songs, dropped, n);
    var linked := RelinkAll(update.songs, update.artists, mid.artists);
    var a, b := Accepted(kept, update.songs, dropped, n), Accepted(moved, linked, dropped, n);
    PairwiseSameNames(kept, moved, Following(cat.artists, mid.artists));
    PairwiseSameNames(a, b, Linking(update.artists, mid.artists));
    DeletePassSorted(cat.songs, update.songs, dropped, n, less);
    SameNamesAllBelong(kept, a, moved, b, less);
    InsertPassMergesIff(moved, linked, dropped, less);
  }
}
