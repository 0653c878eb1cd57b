/** pMapIndex: where merge_songInfo says it put each update song, against where the song is once
    later insertions have shifted the table. The volume merge begins by checking the two agree. */
module PositionMap {
  import opened Catalogue
  import opened Conservation
  import opened SortedMerge

  /** The recorded position of update song i still holds its code. */
  ghost predicate Points(run: SongRun, updates: seq<Entry>, i: nat)
  {
    && i in run.places && i < |updates|
    && run.places[i] < |run.songs| && run.songs[run.places[i]].info.code6 == updates[i].info.code6
  }

  ghost predicate AllPoint(run: SongRun, updates: seq<Entry>)
  {
    forall i | i in run.places :: Points(run, updates, i)
  }

  /** Update song i has been pushed past its recorded position. */
  ghost predicate Pushed(run: SongRun, updates: seq<Entry>, i: nat)
  {
    && i in run.places && i < |updates|
    && exists p | run.places[i] < p < |run.songs| :: run.songs[p].info.code6 == updates[i].info.code6
  }

  /** Round n of the loop inserts, and in front of nothing that an earlier round recorded. */
  ghost predicate Undisturbed(run: SongRun, u: Entry, drop: bool, less: Less)
    requires run.cursor <= |run.songs|
  {
    drop || HasCode6(run.songs, u.info.code6) ||
    forall i | i in run.places :: run.places[i] < PlaceSong(run.songs, u, run.cursor, less)
  }

  lemma {:induction false} PlacesBelow(songs: seq<Entry>, updates: seq<Entry>, dropped: seq<bool>, n: nat, less: Less)
    requires n <= |updates| == |dropped|
    ensures forall i | i in InsertPass(songs, updates, dropped, n, less).places :: i < n
  {
    if n > 0 {
      PlacesBelow(songs, updates, dropped, n - 1, less);
    }
  }

  lemma RoundPoints(run: SongRun, updates: seq<Entry>, n: nat, drop: bool, less: Less)
    requires run.cursor <= |run.songs| && n < |updates|
    requires AllPoint(run, updates) && Undisturbed(run, updates[n], drop, less)
    ensures AllPoint(InsertRound(run, n, updates[n], drop, less), updates)
  {}

  lemma RoundPushes(run: SongRun, updates: seq<Entry>, n: nat, drop: bool, less: Less, i: nat)
    requires run.cursor <= |run.songs| && n < |updates| && n !in run.places
    requires Pushed(run, updates, i) || (Points(run, updates, i) && !drop && !HasCode6(run.songs, updates[n].info.code6)
                                         && PlaceSong(run.songs, updates[n], run.cursor, less) <= run.places[i])
    ensures Pushed(InsertRound(run, n, updates[n], drop, less), updates, i)
  {
    var next := InsertRound(run, n, updates[n], drop, less);
    if next != run {
      var at := PlaceSong(run.songs, updates[n], run.cursor, less);
      if Pushed(run, updates, i) {
        var p :| run.places[i] < p < |run.songs| && run.songs[p].info.code6 == updates[i].info.code6;
        assert next.songs[if p < at then p else p + 1] == run.songs[p];
      } else {
        assert next.songs[run.places[i] + 1] == run.songs[run.places[i]];
      }
    }
  }

  /** No round of the first n disturbed a recorded position. */
  ghost predicate Quiet(songs: seq<Entry>, updates: seq<Entry>, dropped: seq<bool>, n: nat, less: Less)
    requires n <= |updates| == |dropped|
  {
    n == 0 ||
    (Quiet(songs, updates, dropped, n - 1, less) &&
     Undisturbed(InsertPass(songs, updates, dropped, n - 1, less), updates[n - 1], dropped[n - 1], less))
  }

  lemma RoundKeepsOrLoses(
    run: SongRun, updates: seq<Entry>, n: nat, drop: bool, less: Less, quiet: bool, i: nat) returns (j: nat)
    requires run.cursor <= |run.songs| && n < |updates| && n !in run.places
    requires if quiet then AllPoint(run, updates) else Pushed(run, updates, i)
    ensures if quiet && Undisturbed(run, updates[n], drop, less)
            then AllPoint(InsertRound(run, n, updates[n], drop, less), updates)
            else Pushed(InsertRound(run, n, updates[n], drop, less), updates, j)
  {
    j := i;
    if quiet && Undisturbed(run, updates[n], drop, less) {
      RoundPoints(run, updates, n, drop, less);
    } else {
      if quiet {
        j :| j in run.places && PlaceSong(run.songs, updates[n], run.cursor, less) <= run.places[j];
        assert Points(run, updates, j);
      }
      RoundPushes(run, updates, n, drop, less, j);
    }
  }

  lemma {:induction false} PointsOrPushed(
    songs: seq<Entry>, updates: seq<Entry>, dropped: seq<bool>, n: nat, less: Less) returns (i: nat)
    requires n <= |updates| == |dropped|
    ensures if Quiet(songs, updates, dropped, n, less)
            then AllPoint(InsertPass(songs, updates, dropped, n, less), updates)
            else Pushed(InsertPass(songs, updates, dropped, n, less), updates, i)
  {
    hide Undisturbed, HasCode6, PlaceSong, Pushed;
    i := 0;
    if n > 0 {
      i := PointsOrPushed(songs, updates, dropped, n - 1, less);
      PlacesBelow(songs, updates, dropped, n - 1, less);
      var last, u, drop := InsertPass(songs, updates, dropped, n - 1, less), updates[n - 1], dropped[n - 1];
      var quiet := Quiet(songs, updates, dropped, n - 1, less);
      var next := InsertRound(last, n - 1, u, drop, less);
      i := RoundKeepsOrLoses(last, updates, n - 1, drop, less, quiet, i);
      assert Quiet(songs, updates, dropped, n, less) == (quiet && Undisturbed(last, u, drop, less));
      assert InsertPass(songs, updates, dropped, n, less) == next;
    }
  }

  /** The positions are right at the end exactly when no round disturbed one: a song once pushed
      is never met again at its recorded position, its code being nobody else's. */
  lemma QuietIff(songs: seq<Entry>, updates: seq<Entry>, dropped: seq<bool>, n: nat, less: Less)
    requires n <= |updates| == |dropped| && DistinctCodes(songs)
    ensures AllPoint(InsertPass(songs, updates, dropped, n, less), updates)
       <==> Quiet(songs, updates, dropped, n, less)
  {
    var i := PointsOrPushed(songs, updates, dropped, n, less);
    InsertPassDistinct(songs, updates, dropped, n, less);
    if !Quiet(songs, updates, dropped, n, less) {
      PushedIsLost(InsertPass(songs, updates, dropped, n, less), updates, i);
    }
  }

  lemma PushedIsLost(run: SongRun, updates: seq<Entry>, i: nat)
    requires DistinctCodes(run.songs) && Pushed(run, updates, i)
    ensures !Points(run, updates, i) && !AllPoint(run, updates)
  {}

  // ---- when no round does, told from the input

  /** x sorts before no old song that the search can meet (it cannot meet the head), nor before the late
      song stored a-th (unless that one is the head). */
  ghost predicate StaysBehind(songs: seq<Entry>, accepted: seq<Entry>, a: nat, x: Entry, less: Less)
    requires a < |accepted|
  {
    && (forall m | 1 <= m < |songs| :: !less(x.name, songs[m].name))
    && (|songs| + a > 0 ==> !less(x.name, accepted[a].name))
  }

  ghost predicate OvertakesNone(songs: seq<Entry>, accepted: seq<Entry>, x: Entry, less: Less)
  {
    Late(x) || forall a | 0 <= a < |accepted| && Late(accepted[a]) :: StaysBehind(songs, accepted, a, x, less)
  }

  /** No searched song that comes after a late one sorts before an old song or before that late one. */
  ghost predicate NoneOvertakes(songs: seq<Entry>, accepted: seq<Entry>, less: Less)
  {
    forall a, b | 0 <= a < b < |accepted| && Late(accepted[a]) && !Late(accepted[b]) ::
      StaysBehind(songs, accepted, a, accepted[b], less)
  }

  lemma NoneOvertakesStep(songs: seq<Entry>, accepted: seq<Entry>, x: Entry, less: Less)
    ensures NoneOvertakes(songs, accepted + [x], less)
       <==> NoneOvertakes(songs, accepted, less) && OvertakesNone(songs, accepted, x, less)
  {
    var all := accepted + [x];
    assert all[|accepted|] == x && forall a | 0 <= a < |accepted| :: all[a] == accepted[a];
    assert forall a, b | 0 <= a < |accepted| && 0 <= b < |accepted| ::
      StaysBehind(songs, all, a, accepted[b], less) == StaysBehind(songs, accepted, a, accepted[b], less);
    assert forall a | 0 <= a < |accepted| ::
      StaysBehind(songs, all, a, x, less) == StaysBehind(songs, accepted, a, x, less);
    if NoneOvertakes(songs, all, less) && !Late(x) {
      assert forall a | 0 <= a < |accepted| && Late(accepted[a]) :: StaysBehind(songs, all, a, all[|accepted|], less);
    }
  }

  /** e is in the table before position `end`, and not at its head. */
  ghost predicate Ahead(e: Entry, table: seq<Entry>, end: nat)
    requires end <= |table|
  {
    exists p | 1 <= p < end :: table[p] == e
  }

  ghost predicate OldBefore(songs: seq<Entry>, table: seq<Entry>, end: nat)
    requires end <= |table|
  {
    forall m | 1 <= m < |songs| :: Ahead(songs[m], table, end)
  }

  /** e is an old song or a late one, and not one that stands at the head for good. */
  ghost predicate Behind(songs: seq<Entry>, accepted: seq<Entry>, e: Entry)
  {
    || (exists m | 1 <= m < |songs| :: songs[m] == e)
    || (exists a | 0 <= a < |accepted| && |songs| + a > 0 :: Late(accepted[a]) && accepted[a] == e)
  }

  /** What the loop keeps: nothing but old and late songs past the cursor; between the head and the
      cursor nothing that sorts after the song at the cursor, which is a searched one. */
  ghost predicate Shape(songs: seq<Entry>, accepted: seq<Entry>, run: SongRun, less: Less)
  {
    && |run.songs| == |songs| + |accepted|
    && run.cursor <= |run.songs| && (run.songs != [] ==> run.cursor < |run.songs|)
    && OldBefore(songs, run.songs, |run.songs|)
    && (forall p | run.cursor < p < |run.songs| :: Behind(songs, accepted, run.songs[p]))
    && (forall p | 1 <= p <= run.cursor && p < |run.songs| :: !less(run.songs[run.cursor].name, run.songs[p].name))
    && (0 < run.cursor < |run.songs| ==> IsSearched(accepted, run.songs[run.cursor]))
  }

  /** The late song stored a-th is where it was put, and the old table is in front of it. */
  ghost predicate Stands(songs: seq<Entry>, accepted: seq<Entry>, table: seq<Entry>, a: nat)
    requires a < |accepted| && |table| == |songs| + |accepted|
  {
    Late(accepted[a]) ==> table[|songs| + a] == accepted[a] && OldBefore(songs, table, |songs| + a)
  }

  ghost predicate AllStand(songs: seq<Entry>, accepted: seq<Entry>, table: seq<Entry>)
    requires |table| == |songs| + |accepted|
  {
    forall a | 0 <= a < |accepted| :: Stands(songs, accepted, table, a)
  }

  /** Position at lies behind every late song. */
  ghost predicate PastLate(songs: seq<Entry>, accepted: seq<Entry>, at: nat)
  {
    forall a | 0 <= a < |accepted| && Late(accepted[a]) :: |songs| + a < at
  }

  /** The search passes over nothing that x sorts before; position 0 is not searched. */
  lemma PassedOver(songs: seq<Entry>, accepted: seq<Entry>, run: SongRun, x: Entry, less: Less, q: nat)
    requires TotalPreorder(less) && Shape(songs, accepted, run, less) && !Late(x)
    requires SearchedInOrder(accepted + [x], less) && 1 <= q < PlaceSong(run.songs, x, run.cursor, less)
    ensures !less(x.name, run.songs[q].name)
  {
    hide OldBefore, Behind;
    if q <= run.cursor {
      InOrderPrefix(accepted, x, less);
      assert Chains(less, run.songs[q].name, run.songs[run.cursor].name, x.name);
    }
  }

  /** What x meets past the cursor it does not sort before, if it stays behind some late song and
      all of them. */
  lemma NotBeforeBehind(songs: seq<Entry>, accepted: seq<Entry>, x: Entry, less: Less, a: nat, e: Entry)
    requires !Late(x) && OvertakesNone(songs, accepted, x, less)
    requires a < |accepted| && Late(accepted[a]) && Behind(songs, accepted, e)
    ensures !less(x.name, e.name)
  {
    if m :| 1 <= m < |songs| && songs[m] == e {
      assert StaysBehind(songs, accepted, a, x, less);
    } else {
      var b :| 0 <= b < |accepted| && |songs| + b > 0 && Late(accepted[b]) && accepted[b] == e;
      assert StaysBehind(songs, accepted, b, x, less);
    }
  }

  /** A searched song goes in behind every late one exactly when it does not overtake the songs the
      condition names. */
  lemma PastLateIff(songs: seq<Entry>, accepted: seq<Entry>, run: SongRun, x: Entry, less: Less)
    requires TotalPreorder(less) && Shape(songs, accepted, run, less)
    requires AllStand(songs, accepted, run.songs) && SearchedInOrder(accepted + [x], less) && !Late(x)
    ensures PastLate(songs, accepted, PlaceSong(run.songs, x, run.cursor, less))
       <==> OvertakesNone(songs, accepted, x, less)
  {
    hide Behind, TotalPreorder, SearchedInOrder;
    var at := PlaceSong(run.songs, x, run.cursor, less);
    forall a | 0 <= a < |accepted| && Late(accepted[a])
      ensures |songs| + a < at ==> StaysBehind(songs, accepted, a, x, less)
      ensures OvertakesNone(songs, accepted, x, less) ==> |songs| + a < at
    {
      assert Stands(songs, accepted, run.songs, a);
      if |songs| + a < at {
        if |songs| + a > 0 { PassedOver(songs, accepted, run, x, less, |songs| + a); }
        forall m | 1 <= m < |songs|
          ensures !less(x.name, songs[m].name)
        {
          assert Ahead(songs[m], run.songs, |songs| + a);
          var p :| 1 <= p < |songs| + a && run.songs[p] == songs[m];
          PassedOver(songs, accepted, run, x, less, p);
        }
      } else if OvertakesNone(songs, accepted, x, less) {
        NotBeforeBehind(songs, accepted, x, less, a, run.songs[at]);
        assert false;
      }
    }
  }

  lemma BehindMore(songs: seq<Entry>, accepted: seq<Entry>, x: Entry, e: Entry)
    ensures Behind(songs, accepted, e) ==> Behind(songs, accepted + [x], e)
    ensures Late(x) && |songs| + |accepted| > 0 ==> Behind(songs, accepted + [x], x)
    ensures IsSearched(accepted, e) ==> IsSearched(accepted + [x], e)
    ensures !Late(x) ==> IsSearched(accepted + [x], x)
  {
    var all := accepted + [x];
    assert all[|accepted|] == x && forall a | 0 <= a < |accepted| :: all[a] == accepted[a];
  }

  lemma AheadInsert(e: Entry, table: seq<Entry>, at: nat, x: Entry, end: nat)
    requires end <= |table| && at <= |table| && (|table| > 0 ==> at > 0) && Ahead(e, table, end)
    ensures Ahead(e, Insert(table, at, x), end + 1)
    ensures end <= at ==> Ahead(e, Insert(table, at, x), end)
  {
    var p :| 1 <= p < end && table[p] == e;
    assert Insert(table, at, x)[if p < at then p else p + 1] == e;
  }

  lemma OldBeforeInsert(songs: seq<Entry>, table: seq<Entry>, at: nat, x: Entry, end: nat)
    requires end <= |table| && at <= |table| && (|table| > 0 ==> at > 0) && OldBefore(songs, table, end)
    ensures OldBefore(songs, Insert(table, at, x), end + 1)
    ensures end <= at ==> OldBefore(songs, Insert(table, at, x), end)
  {
    hide Ahead, Insert;
    InsertMoves(table, at, x);
    forall m | 1 <= m < |songs|
      ensures Ahead(songs[m], Insert(table, at, x), end + 1)
      ensures end <= at ==> Ahead(songs[m], Insert(table, at, x), end)
    {
      AheadInsert(songs[m], table, at, x, end);
    }
  }

  lemma ShapeStep(songs: seq<Entry>, accepted: seq<Entry>, run: SongRun, n: nat, x: Entry, less: Less)
    requires TotalPreorder(less) && Shape(songs, accepted, run, less) && SearchedInOrder(accepted + [x], less)
    requires !HasCode6(run.songs, x.info.code6)
    ensures Shape(songs, accepted + [x], InsertRound(run, n, x, false, less), less)
  {
    hide OldBefore, Behind, IsSearched, SearchedInOrder, HasCode6, Insert;
    var at := PlaceSong(run.songs, x, run.cursor, less);
    var next := InsertRound(run, n, x, false, less);
    OldBeforeInsert(songs, run.songs, at, x, |run.songs|);
    InsertMoves(run.songs, at, x);
    forall p | next.cursor < p < |next.songs|
      ensures Behind(songs, accepted + [x], next.songs[p])
    {
      BehindMore(songs, accepted, x, next.songs[p]);
    }
    forall p | 1 <= p <= next.cursor && p < |next.songs|
      ensures !less(next.songs[next.cursor].name, next.songs[p].name)
    {
      if !Late(x) && p < at { PassedOver(songs, accepted, run, x, less, p); }
    }
    if 0 < next.cursor < |next.songs| { BehindMore(songs, accepted, x, next.songs[next.cursor]); }
  }

  lemma InsertMoves(table: seq<Entry>, at: nat, x: Entry)
    requires at <= |table|
    ensures
      var after := Insert(table, at, x);
      && |after| == |table| + 1 && after[at] == x
      && (forall p | 0 <= p < at :: after[p] == table[p])
      && (forall p | at < p < |after| :: after[p] == table[p - 1])
  {}

  lemma StandStep(songs: seq<Entry>, accepted: seq<Entry>, table: seq<Entry>, at: nat, x: Entry)
    requires |table| == |songs| + |accepted| && at <= |table| && (|table| > 0 ==> at > 0)
    requires AllStand(songs, accepted, table) && PastLate(songs, accepted, at)
    requires OldBefore(songs, table, |table|) && (Late(x) ==> at == |table|)
    ensures AllStand(songs, accepted + [x], Insert(table, at, x))
  {
    hide OldBefore, Insert;
    InsertMoves(table, at, x);
    forall a | 0 <= a < |accepted + [x]| && Late((accepted + [x])[a])
      ensures Stands(songs, accepted + [x], Insert(table, at, x), a)
    {
      if a < |accepted| {
        assert Stands(songs, accepted, table, a);
        OldBeforeInsert(songs, table, at, x, |songs| + a);
      } else {
        OldBeforeInsert(songs, table, at, x, |table|);
      }
    }
  }

  /** A recorded position is that of a searched song, up to the cursor, or of a late one. */
  ghost predicate Known(songs: seq<Entry>, accepted: seq<Entry>, cursor: nat, size: nat, at: nat)
  {
    || (at <= cursor && cursor < size)
    || (|songs| <= at < |songs| + |accepted| && Late(accepted[at - |songs|]))
  }

  ghost predicate Recorded(places: map<nat, nat>, at: nat) { exists i :: i in places && places[i] == at }

  ghost predicate PlacesKnown(songs: seq<Entry>, accepted: seq<Entry>, run: SongRun)
  {
    && (forall i | i in run.places :: Known(songs, accepted, run.cursor, |run.songs|, run.places[i]))
    && (forall a | 0 <= a < |accepted| && Late(accepted[a]) :: Recorded(run.places, |songs| + a))
  }

  /** So a round leaves them alone when it inserts past the late ones. */
  lemma UndisturbedIff(songs: seq<Entry>, accepted: seq<Entry>, run: SongRun, x: Entry, less: Less)
    requires Shape(songs, accepted, run, less) && PlacesKnown(songs, accepted, run)
    requires !HasCode6(run.songs, x.info.code6)
    ensures Undisturbed(run, x, false, less) <==> PastLate(songs, accepted, PlaceSong(run.songs, x, run.cursor, less))
  {
    hide OldBefore, Behind, IsSearched, HasCode6;
    var at := PlaceSong(run.songs, x, run.cursor, less);
    if Undisturbed(run, x, false, less) {
      forall a | 0 <= a < |accepted| && Late(accepted[a])
        ensures |songs| + a < at
      {
        assert Recorded(run.places, |songs| + a);
      }
    }
  }

  lemma RecordedStep(places: map<nat, nat>, n: nat, at: nat, q: nat)
    requires n !in places
    ensures Recorded(places, q) ==> Recorded(places[n := at], q)
    ensures Recorded(places[n := at], at)
  {
    if Recorded(places, q) {
      var i :| i in places && places[i] == q;
      assert places[n := at][i] == q;
    }
    assert places[n := at][n] == at;
  }

  lemma PlacesStep(songs: seq<Entry>, accepted: seq<Entry>, run: SongRun, n: nat, x: Entry, less: Less)
    requires Shape(songs, accepted, run, less) && PlacesKnown(songs, accepted, run) && n !in run.places
    requires !HasCode6(run.songs, x.info.code6)
    ensures PlacesKnown(songs, accepted + [x], InsertRound(run, n, x, false, less))
  {
    hide OldBefore, Behind, IsSearched, HasCode6, Recorded, Insert, FindSong;
    var all, next := accepted + [x], InsertRound(run, n, x, false, less);
    var at := PlaceSong(run.songs, x, run.cursor, less);
    InsertMoves(run.songs, at, x);
    forall i | i in next.places
      ensures Known(songs, all, next.cursor, |next.songs|, next.places[i])
    {
      if i != n { assert Known(songs, accepted, run.cursor, |run.songs|, run.places[i]); }
    }
    forall a | 0 <= a < |all| && Late(all[a])
      ensures Recorded(next.places, |songs| + a)
    {
      RecordedStep(run.places, n, at, |songs| + a);
    }
  }

  /** The state of the loop as long as no position was disturbed. */
  ghost predicate Settled(songs: seq<Entry>, accepted: seq<Entry>, run: SongRun)
    requires |run.songs| == |songs| + |accepted|
  {
    AllStand(songs, accepted, run.songs) && PlacesKnown(songs, accepted, run)
  }

  lemma SettledStep(songs: seq<Entry>, accepted: seq<Entry>, run: SongRun, n: nat, x: Entry, less: Less)
    requires TotalPreorder(less) && Shape(songs, accepted, run, less)
    requires SearchedInOrder(accepted + [x], less) && !HasCode6(run.songs, x.info.code6)
    requires Settled(songs, accepted, run) && n !in run.places
    ensures Undisturbed(run, x, false, less) <==> OvertakesNone(songs, accepted, x, less)
    ensures
      var next := InsertRound(run, n, x, false, less);
      && |next.songs| == |songs| + |accepted + [x]|
      && (Undisturbed(run, x, false, less) ==> Settled(songs, accepted + [x], next))
  {
    hide OldBefore, Behind, IsSearched, HasCode6, AllStand, PlacesKnown, SearchedInOrder, TotalPreorder,
         Undisturbed, OvertakesNone;
    var at := PlaceSong(run.songs, x, run.cursor, less);
    UndisturbedIff(songs, accepted, run, x, less);
    if Late(x) {
      LatePasses(songs, accepted, x, less);
    } else {
      PastLateIff(songs, accepted, run, x, less);
    }
    if PastLate(songs, accepted, at) {
      StandStep(songs, accepted, run.songs, at, x);
      PlacesStep(songs, accepted, run, n, x, less);
    }
  }

  lemma LatePasses(songs: seq<Entry>, accepted: seq<Entry>, x: Entry, less: Less)
    ensures PastLate(songs, accepted, |songs| + |accepted|)
    ensures Late(x) ==> OvertakesNone(songs, accepted, x, less)
  {}

  lemma SettledAtStart(songs: seq<Entry>, less: Less)
    ensures Shape(songs, [], SongRun(songs, 0, map[]), less) && Settled(songs, [], SongRun(songs, 0, map[]))
  {
    forall m | 1 <= m < |songs|
      ensures Ahead(songs[m], songs, |songs|)
    {}
    forall p | 0 < p < |songs|
      ensures Behind(songs, [], songs[p])
    {}
  }

  lemma {:induction false} ShapeHolds(
    songs: seq<Entry>, updates: seq<Entry>, dropped: seq<bool>, n: nat, less: Less)
    requires n <= |updates| == |dropped| && TotalPreorder(less)
    requires SearchedInOrder(Accepted(songs, updates, dropped, n), less)
    ensures Shape(songs, Accepted(songs, updates, dropped, n), InsertPass(songs, updates, dropped, n, less), less)
  {
    hide Shape, SearchedInOrder, HasCode6, InsertRound, TotalPreorder;
    if n == 0 {
      SettledAtStart(songs, less);
    } else {
      var accepted, u := Accepted(songs, updates, dropped, n - 1), updates[n - 1];
      var run := InsertPass(songs, updates, dropped, n - 1, less);
      InsertPassHas(songs, updates, dropped, n - 1, less, u.info.code6);
      if Accepted(songs, updates, dropped, n) == accepted + [u] { InOrderPrefix(accepted, u, less); }
      ShapeHolds(songs, updates, dropped, n - 1, less);
      SkipOrStore(run, n - 1, u, dropped[n - 1], less);
      if !dropped[n - 1] && !HasCode6(run.songs, u.info.code6) { ShapeStep(songs, accepted, run, n - 1, u, less); }
    }
  }

  lemma SkipOrStore(run: SongRun, n: nat, u: Entry, drop: bool, less: Less)
    requires run.cursor <= |run.songs|
    ensures drop || HasCode6(run.songs, u.info.code6) ==>
      InsertRound(run, n, u, drop, less) == run && Undisturbed(run, u, drop, less)
    ensures !drop ==> InsertRound(run, n, u, drop, less) == InsertRound(run, n, u, false, less)
    ensures !drop ==> Undisturbed(run, u, drop, less) == Undisturbed(run, u, false, less)
  {}

  lemma {:induction false} QuietIffNoneOvertakes(
    songs: seq<Entry>, updates: seq<Entry>, dropped: seq<bool>, n: nat, less: Less)
    requires n <= |updates| == |dropped| && TotalPreorder(less)
    requires SearchedInOrder(Accepted(songs, updates, dropped, n), less)
    ensures Shape(songs, Accepted(songs, updates, dropped, n), InsertPass(songs, updates, dropped, n, less), less)
    ensures Quiet(songs, updates, dropped, n, less)
       <==> NoneOvertakes(songs, Accepted(songs, updates, dropped, n), less)
    ensures Quiet(songs, updates, dropped, n, less) ==>
      Settled(songs, Accepted(songs, updates, dropped, n), InsertPass(songs, updates, dropped, n, less))
  {
    hide Shape, SearchedInOrder, HasCode6, InsertRound, TotalPreorder, Undisturbed, Settled, OvertakesNone,
         NoneOvertakes;
    ShapeHolds(songs, updates, dropped, n, less);
    ShapeSize(songs, updates, dropped, n, less);
    if n == 0 {
      SettledAtStart(songs, less);
      NobodyOvertakes(songs, less);
    } else {
      var accepted, u := Accepted(songs, updates, dropped, n - 1), updates[n - 1];
      var run := InsertPass(songs, updates, dropped, n - 1, less);
      InsertPassHas(songs, updates, dropped, n - 1, less, u.info.code6);
      if Accepted(songs, updates, dropped, n) == accepted + [u] { InOrderPrefix(accepted, u, less); }
      QuietIffNoneOvertakes(songs, updates, dropped, n - 1, less);
      PlacesBelow(songs, updates, dropped, n - 1, less);
      SkipOrStore(run, n - 1, u, dropped[n - 1], less);
      if !dropped[n - 1] && !HasCode6(run.songs, u.info.code6) {
        NoneOvertakesStep(songs, accepted, u, less);
        if Quiet(songs, updates, dropped, n - 1, less) { SettledStep(songs, accepted, run, n - 1, u, less); }
      }
    }
  }

  lemma ShapeSize(songs: seq<Entry>, updates: seq<Entry>, dropped: seq<bool>, n: nat, less: Less)
    requires n <= |updates| == |dropped|
    ensures |InsertPass(songs, updates, dropped, n, less).songs| == |songs| + |Accepted(songs, updates, dropped, n)|
  {
    InsertPassConserves(songs, updates, dropped, n, less);
  }

  lemma NobodyOvertakes(songs: seq<Entry>, less: Less)
    ensures NoneOvertakes(songs, [], less)
  {}

  /** With the searched songs in order, on any table: every recorded position is right at the end exactly
      when no searched song stored after a late one sorts before an old song or before that late one. */
  lemma PositionsHoldIff(songs: seq<Entry>, updates: seq<Entry>, dropped: seq<bool>, less: Less)
    requires |updates| == |dropped| && DistinctCodes(songs) && TotalPreorder(less)
    requires SearchedInOrder(Accepted(songs, updates, dropped, |updates|), less)
    ensures AllPoint(InsertPass(songs, updates, dropped, |updates|, less), updates)
       <==> NoneOvertakes(songs, Accepted(songs, updates, dropped, |updates|), less)
  {
    hide Quiet, AllPoint, Shape, NoneOvertakes;
    QuietIff(songs, updates, dropped, |updates|, less);
    QuietIffNoneOvertakes(songs, updates, dropped, |updates|, less);
  }

  // ---- when the late songs come last

  /** Every recorded position is at or before the cursor while only searched songs came. */
  lemma {:induction false} SearchedPlacesBehindCursor(
    songs: seq<Entry>, updates: seq<Entry>, dropped: seq<bool>, n: nat, less: Less)
    requires n <= |updates| == |dropped|
    requires forall k | 0 <= k < n :: updates[k].info.language < 3
    ensures
      var run := InsertPass(songs, updates, dropped, n, less);
      && (forall i | i in run.places :: run.places[i] <= run.cursor)
      && (run.places != map[] ==> run.cursor < |run.songs|)
  {
    if n > 0 {
      SearchedPlacesBehindCursor(songs, updates, dropped, n - 1, less);
    }
  }

  ghost predicate InTable(run: SongRun)
  {
    run.cursor <= |run.songs| && forall i | i in run.places :: run.places[i] < |run.songs|
  }

  lemma RoundInTable(run: SongRun, n: nat, u: Entry, drop: bool, less: Less)
    requires InTable(run)
    ensures InTable(InsertRound(run, n, u, drop, less))
  {}

  lemma {:induction false} PlacesInTable(songs: seq<Entry>, updates: seq<Entry>, dropped: seq<bool>, n: nat, less: Less)
    requires n <= |updates| == |dropped|
    ensures InTable(InsertPass(songs, updates, dropped, n, less))
  {
    if n > 0 {
      PlacesInTable(songs, updates, dropped, n - 1, less);
      var last := InsertPass(songs, updates, dropped, n - 1, less);
      RoundInTable(last, n - 1, updates[n - 1], dropped[n - 1], less);
    }
  }

  /** Songs of language 3 and above come last. */
  ghost predicate SearchedFirst(updates: seq<Entry>)
  {
    forall i, j | 0 <= i < j < |updates| :: updates[j].info.language < 3 ==> updates[i].info.language < 3
  }

  /** Nothing recorded lies past the cursor, or the round goes to the end of the table. */
  lemma RoundLeavesAlone(run: SongRun, u: Entry, drop: bool, less: Less)
    requires InTable(run)
    requires Late(u) || ((forall i | i in run.places :: run.places[i] <= run.cursor)
                         && (run.places != map[] ==> run.cursor < |run.songs|))
    ensures Undisturbed(run, u, drop, less)
  {}

  lemma {:induction false} SearchedFirstQuiet(
    songs: seq<Entry>, updates: seq<Entry>, dropped: seq<bool>, n: nat, less: Less)
    requires n <= |updates| == |dropped| && SearchedFirst(updates)
    ensures Quiet(songs, updates, dropped, n, less)
  {
    hide InTable, InsertPass, Undisturbed;
    if n > 0 {
      SearchedFirstQuiet(songs, updates, dropped, n - 1, less);
      PlacesInTable(songs, updates, dropped, n - 1, less);
      if updates[n - 1].info.language < 3 {
        SearchedPlacesBehindCursor(songs, updates, dropped, n - 1, less);
      }
      RoundLeavesAlone(InsertPass(songs, updates, dropped, n - 1, less), updates[n - 1], dropped[n - 1], less);
    }
  }

  /** No update song is skipped. */
  ghost predicate AllNew(songs: seq<Entry>, updates: seq<Entry>, dropped: seq<bool>)
    requires |updates| == |dropped|
  {
    && (forall i | 0 <= i < |dropped| :: !dropped[i])
    && DistinctCodes(updates) && Codes(songs) !! Codes(updates)
  }

  lemma RoundPlaces(run: SongRun, n: nat, u: Entry, drop: bool, less: Less)
    requires run.cursor <= |run.songs|
    ensures InsertRound(run, n, u, drop, less).places.Keys
         == run.places.Keys + if drop || HasCode6(run.songs, u.info.code6) then {} else {n}
  {}

  lemma AllNewRound(songs: seq<Entry>, updates: seq<Entry>, dropped: seq<bool>, i: nat)
    requires i < |updates| == |dropped| && AllNew(songs, updates, dropped)
    ensures !dropped[i] && !HasCode6(songs, updates[i].info.code6) && !HasCode6(updates[..i], updates[i].info.code6)
  {
    HasCode6InCodes(songs, updates[i].info.code6);
    assert updates[i].info.code6 in Codes(updates);
  }

  ghost predicate AllPlaced(run: SongRun, n: nat) { forall i | 0 <= i < n :: i in run.places }

  lemma {:induction false} AllNewAccepted(
    songs: seq<Entry>, updates: seq<Entry>, dropped: seq<bool>, n: nat, less: Less)
    requires n <= |updates| == |dropped| && AllNew(songs, updates, dropped)
    ensures Accepted(songs, updates, dropped, n) == updates[..n]
    ensures AllPlaced(InsertPass(songs, updates, dropped, n, less), n)
  {
    hide AllNew, HasCode6, InsertRound;
    if n > 0 {
      AllNewAccepted(songs, updates, dropped, n - 1, less);
      AllNewRound(songs, updates, dropped, n - 1);
      RoundPlaces(InsertPass(songs, updates, dropped, n - 1, less), n - 1, updates[n - 1], dropped[n - 1], less);
      InsertPassHas(songs, updates, dropped, n - 1, less, updates[n - 1].info.code6);
      assert updates[..n] == updates[..n - 1] + [updates[n - 1]];
    }
  }

  lemma {:induction false} PlacedAccepted(
    songs: seq<Entry>, updates: seq<Entry>, dropped: seq<bool>, n: nat, less: Less)
    requires n <= |updates| == |dropped|
    requires AllPlaced(InsertPass(songs, updates, dropped, n, less), n)
    ensures Accepted(songs, updates, dropped, n) == updates[..n]
    ensures forall i | 0 <= i < n ::
      !dropped[i] && !HasCode6(songs, updates[i].info.code6) && !HasCode6(updates[..i], updates[i].info.code6)
  {
    hide HasCode6, InsertRound;
    if n > 0 {
      var run, u := InsertPass(songs, updates, dropped, n - 1, less), updates[n - 1];
      PlacesBelow(songs, updates, dropped, n - 1, less);
      InsertPassHas(songs, updates, dropped, n - 1, less, u.info.code6);
      RoundPlaces(run, n - 1, u, dropped[n - 1], less);
      PlacedAccepted(songs, updates, dropped, n - 1, less);
      assert n - 1 in InsertPass(songs, updates, dropped, n, less).places;
      var accepted := Accepted(songs, updates, dropped, n - 1);
      assert accepted == updates[..n - 1];
      assert Accepted(songs, updates, dropped, n) == accepted + [u];
      assert updates[..n] == updates[..n - 1] + [u];
    }
  }

  /** A position is recorded for every update song exactly when none is skipped. */
  lemma AllPlacedIff(songs: seq<Entry>, updates: seq<Entry>, dropped: seq<bool>, less: Less)
    requires |updates| == |dropped|
    ensures AllPlaced(InsertPass(songs, updates, dropped, |updates|, less), |updates|)
       <==> AllNew(songs, updates, dropped)
  {
    if AllNew(songs, updates, dropped) {
      AllNewAccepted(songs, updates, dropped, |updates|, less);
    }
    if AllPlaced(InsertPass(songs, updates, dropped, |updates|, less), |updates|) {
      PlacedAccepted(songs, updates, dropped, |updates|, less);
      NewApart(songs, updates);
    }
  }

  lemma NewApart(songs: seq<Entry>, updates: seq<Entry>)
    requires forall i | 0 <= i < |updates| ::
      !HasCode6(songs, updates[i].info.code6) && !HasCode6(updates[..i], updates[i].info.code6)
    ensures DistinctCodes(updates) && Codes(songs) !! Codes(updates)
  {
    forall i, j | 0 <= i < j < |updates|
      ensures updates[i].info.code6 != updates[j].info.code6
    {
      assert updates[..j][i] == updates[i];
    }
  }

  /** The opening check of merge_song_megvol_mid, over every update song. */
  ghost predicate VolumeCheck(run: SongRun, updates: seq<Entry>)
  {
    forall i | 0 <= i < |updates| :: Points(run, updates, i)
  }

  /** When every update song is stored and the unsearched ones come last, the check passes. */
  lemma VolumeCheckPasses(songs: seq<Entry>, updates: seq<Entry>, dropped: seq<bool>, less: Less)
    requires |updates| == |dropped| && DistinctCodes(songs)
    requires SearchedFirst(updates) && AllNew(songs, updates, dropped)
    ensures VolumeCheck(InsertPass(songs, updates, dropped, |updates|, less), updates)
  {
    SearchedFirstQuiet(songs, updates, dropped, |updates|, less);
    QuietIff(songs, updates, dropped, |updates|, less);
    AllNewAccepted(songs, updates, dropped, |updates|, less);
  }

  lemma ChecksIff(run: SongRun, updates: seq<Entry>)
    requires forall i | i in run.places :: i < |updates|
    ensures VolumeCheck(run, updates) <==> AllPoint(run, updates) && AllPlaced(run, |updates|)
  {
    if AllPoint(run, updates) && AllPlaced(run, |updates|) {
      forall i | 0 <= i < |updates|
        ensures Points(run, updates, i)
      {
        assert i in run.places;
      }
    }
    if VolumeCheck(run, updates) {
      forall i | 0 <= i < |updates|
        ensures i in run.places
      {
        assert Points(run, updates, i);
      }
    }
  }

  /** With the searched songs in order: the check passes exactly when no song is
      skipped and no searched one overtakes what a late one before it relied on. */
  lemma VolumeCheckIff(songs: seq<Entry>, updates: seq<Entry>, dropped: seq<bool>, less: Less)
    requires |updates| == |dropped| && DistinctCodes(songs) && TotalPreorder(less)
    requires SearchedInOrder(Accepted(songs, updates, dropped, |updates|), less)
    ensures VolumeCheck(InsertPass(songs, updates, dropped, |updates|, less), updates)
       <==> AllNew(songs, updates, dropped) && NoneOvertakes(songs, updates, less)
  {
    hide AllNew, NoneOvertakes, InsertPass, Accepted, TotalPreorder, SearchedInOrder, DistinctCodes;
    var run := InsertPass(songs, updates, dropped, |updates|, less);
    PositionsHoldIff(songs, updates, dropped, less);
    AllPlacedIff(songs, updates, dropped, less);
    PlacesBelow(songs, updates, dropped, |updates|, less);
    ChecksIff(run, updates);
    if AllNew(songs, updates, dropped) {
      AllNewAccepted(songs, updates, dropped, |updates|, less);
      assert updates[..|updates|] == updates;
    }
  }

  lemma SameNamesOvertake(
    songs: seq<Entry>, updates: seq<Entry>, after: seq<Entry>, linked: seq<Entry>, dropped: seq<bool>, less: Less)
    requires SameNames(songs, after) && SameNames(updates, linked) && |dropped| == |updates|
    ensures NoneOvertakes(songs, updates, less) <==> NoneOvertakes(after, linked, less)
    ensures AllNew(songs, updates, dropped) <==> AllNew(after, linked, dropped)
  {
    assert Codes(songs) == Codes(after) && Codes(updates) == Codes(linked);
    assert forall a, b | 0 <= a < |updates| && 0 <= b < |updates| ::
      StaysBehind(songs, updates, a, updates[b], less) == StaysBehind(after, linked, a, linked[b], less);
  }

  /** The same for a whole merge, from the index and the update as they are read from their files. */
  lemma MergeVolumeCheckIff(cat: Catalogue, update: Catalogue, dropped: seq<bool>, less: Less)
    requires Mergeable(cat, update, dropped)
    requires TotalPreorder(less) && DistinctCodes(cat.songs)
    requires
      var kept := DeletePass(cat.songs, update.songs, dropped, |update.songs|);
      SearchedInOrder(Accepted(kept, update.songs, dropped, |update.songs|), less)
    ensures UpdateReadable(update)
    ensures
      var kept := DeletePass(cat.songs, update.songs, dropped, |update.songs|);
      var mid := MergeArtists(cat, update.artists, |update.artists|, less).cat;
      VolumeCheck(MergeSongs(mid, update, dropped, less), update.songs)
      <==> AllNew(kept, update.songs, dropped) && NoneOvertakes(kept, update.songs, less)
  {
    hide TotalPreorder, SearchedInOrder, AllNew, NoneOvertakes, DistinctCodes, SameNames, Pairwise,
         DeletePass, Accepted, MergeArtists, InsertPass, RelinkAll, VolumeCheck, Codes, UpdateReadable;
    SongHalf(cat, update, dropped, less);
    var n, mid := |update.songs|, MergeArtists(cat, update.artists, |update.artists|, less).cat;
    var kept, moved := DeletePass(cat.songs, update.songs, dropped, n), DeletePass(mid.songs, update.songs, dropped, n);
    var linked := RelinkAll(update.songs, update.artists, mid.artists);
    PairwiseSameNames(kept, moved, Following(cat.artists, mid.artists));
    RelinkedSameNames(update, mid.artists);
    var a, b := Accepted(kept, update.songs, dropped, n), Accepted(moved, linked, dropped, n);
    PairwiseSameNames(a, b, Linking(update.artists, mid.artists));
    KeptDistinct(cat.songs, update.songs, dropped, n);
    SameNamesDistinct(kept, moved);
    SameNamesOvertake(kept, update.songs, moved, linked, dropped, less);
    SameNamesInOrder(a, b, less);
    VolumeCheckIff(moved, linked, dropped, less);
    SameCodesChecked(MergeSongs(mid, update, dropped, less), update.songs, linked);
  }

  lemma RelinkedSameNames(update: Catalogue, artists: seq<Artist>)
    requires UpdateReadable(update)
    ensures SameNames(update.songs, RelinkAll(update.songs, update.artists, artists))
  {}

  lemma KeptDistinct(songs: seq<Entry>, updates: seq<Entry>, dropped: seq<bool>, n: nat)
    requires n <= |updates| == |dropped| && DistinctCodes(songs)
    ensures DistinctCodes(DeletePass(songs, updates, dropped, n))
  {
    var at := DeletePassKeeps(songs, updates, dropped, n);
  }

  lemma SameNamesDistinct(a: seq<Entry>, b: seq<Entry>)
    requires SameNames(a, b) && DistinctCodes(a)
    ensures DistinctCodes(b)
  {}

  lemma SameNamesInOrder(a: seq<Entry>, b: seq<Entry>, less: Less)
    requires SameNames(a, b)
    ensures SearchedInOrder(a, less) <==> SearchedInOrder(b, less)
  {}

  lemma SameCodesChecked(run: SongRun, updates: seq<Entry>, linked: seq<Entry>)
    requires SameNames(updates, linked)
    ensures VolumeCheck(run, updates) <==> VolumeCheck(run, linked)
  {
    assert forall i | 0 <= i < |updates| :: Points(run, updates, i) == Points(run, linked, i);
  }

  /** With the order reversed it can fail: a Korean song stored at the end of the table is pushed
      on by a Vietnamese one stored after it, and its recorded position names the newcomer. */
  lemma VolumeCheckCanFail(head: Entry, korean: Entry, viet: Entry, less: Less)
    requires korean.info.language == 5 && viet.info.language == 0
    requires head.info.code6 == 1 && korean.info.code6 == 2 && viet.info.code6 == 3
    requires less(viet.name, korean.name)
    ensures AllNew([head], [korean, viet], [false, false])
    ensures !VolumeCheck(InsertPass([head], [korean, viet], [false, false], 2, less), [korean, viet])
  {
    var songs, updates, dropped := [head], [korean, viet], [false, false];
    var one := InsertPass(songs, updates, dropped, 1, less);
    assert InsertPass(songs, updates, dropped, 0, less).songs == [head];
    assert one.songs == [head, korean] && one.cursor == 0 && one.places == map[0 := 1];
    assert PlaceSong(one.songs, viet, 0, less) == 1;
    var two := InsertPass(songs, updates, dropped, 2, less);
    assert two.songs[1] == viet && two.places[0] == 1;
    assert !Points(two, updates, 0);
  }
}
