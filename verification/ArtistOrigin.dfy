/** Where every artist record comes from, on both ways in. A merge finds artists by singerIdx, the add-song
    path by name; what is found gains roles, what is not is copied with its counts taken twice. */
module ArtistOrigin {
  import opened Bytes
  import opened Records
  import opened Catalogue
  import opened References
  import opened AddArtist

  /** What an artist is found by. */
  datatype Key = ByIndex(singerIdx: U32) | ByName(name: Str)

  function KeyOf(a: Artist, byName: bool): Key { if byName then ByName(a.name) else ByIndex(a.singerIdx) }

  /** A record of the table, or the k-th artist handed in. */
  datatype Origin = Old(i: nat) | Made(k: nat)

  ghost predicate HasKey(artists: seq<Artist>, n: nat, key: Key, byName: bool)
    requires n <= |artists|
  {
    exists i | 0 <= i < n :: KeyOf(artists[i], byName) == key
  }

  /** One of the first n artists handed in has the key, and the role. */
  ghost predicate AsksSinger(updates: seq<Artist>, n: nat, key: Key, byName: bool)
    requires n <= |updates|
  {
    exists k | 0 <= k < n :: KeyOf(updates[k], byName) == key && updates[k].credits.isSinger
  }

  ghost predicate AsksAuthor(updates: seq<Artist>, n: nat, key: Key, byName: bool)
    requires n <= |updates|
  {
    exists k | 0 <= k < n :: KeyOf(updates[k], byName) == key && updates[k].credits.isAuthor
  }

  /** Neither the table nor an earlier artist handed in has artist k's key. */
  ghost predicate Unknown(table: seq<Artist>, updates: seq<Artist>, k: nat, byName: bool)
  {
    && k < |updates| && !HasKey(table, |table|, KeyOf(updates[k], byName), byName)
    && !HasKey(updates, k, KeyOf(updates[k], byName), byName)
  }

  ghost predicate Proper(o: Origin, table: seq<Artist>, updates: seq<Artist>, n: nat, byName: bool)
  {
    match o
    case Old(i) => i < |table|
    case Made(k) => k < n && Unknown(table, updates, k, byName)
  }

  /** The record of this origin once the first n artists were handed in. A record of the table is found by its
      key if no earlier one has it. */
  ghost function RecordOf(o: Origin, table: seq<Artist>, updates: seq<Artist>, n: nat, byName: bool): Artist
    requires n <= |updates| && Proper(o, table, updates, n, byName)
  {
    match o
    case Old(i) =>
      var a, key := table[i], KeyOf(table[i], byName);
      if HasKey(table, i, key, byName) then a
      else a.(credits := a.credits.(
        isSinger := a.credits.isSinger || AsksSinger(updates, n, key, byName),
        isAuthor := a.credits.isAuthor || AsksAuthor(updates, n, key, byName)))
    case Made(k) =>
      var u, key := updates[k], KeyOf(updates[k], byName);
      Person(
        Credits(u.credits.nameWords, AsksSinger(updates, n, key, byName), AsksAuthor(updates, n, key, byName),
                u.credits.singerType, 2 * u.credits.singerSongs % 0x40_0000, u.credits.language,
                2 * u.credits.authorSongs % 0x40_0000, u.credits.reserved),
        u.name, u.pinyin, if byName then 0 else u.singerIdx)
  }

  /** Record by record, where table `after` comes from: every old record once, in order, and every unknown artist
      handed in once. */
  ghost predicate Account(
    table: seq<Artist>, updates: seq<Artist>, n: nat, from: seq<Origin>, after: seq<Artist>, byName: bool)
    requires n <= |updates|
  {
    && |from| == |after|
    && (forall j | 0 <= j < |after| ::
          Proper(from[j], table, updates, n, byName) && after[j] == RecordOf(from[j], table, updates, n, byName))
    && (forall j, m | 0 <= j < m < |from| :: Before(from[j], from[m]))
    && (forall i | 0 <= i < |table| :: Old(i) in from)
    && (forall k | 0 <= k < n && Unknown(table, updates, k, byName) :: Made(k) in from)
  }

  ghost predicate Before(o: Origin, p: Origin)
  {
    o != p && (o.Old? && p.Old? ==> o.i < p.i)
  }

  lemma RecordKey(o: Origin, table: seq<Artist>, updates: seq<Artist>, n: nat, byName: bool)
    requires n <= |updates| && Proper(o, table, updates, n, byName)
    ensures KeyOf(RecordOf(o, table, updates, n, byName), byName)
      == match o case Old(i) => KeyOf(table[i], byName) case Made(k) => KeyOf(updates[k], byName)
  {}

  /** The artist handed in next only matters to records with its key. */
  lemma OtherRecord(o: Origin, table: seq<Artist>, updates: seq<Artist>, n: nat, byName: bool)
    requires n < |updates| && Proper(o, table, updates, n, byName)
    requires KeyOf(RecordOf(o, table, updates, n, byName), byName) != KeyOf(updates[n], byName)
      || (o.Old? && HasKey(table, o.i, KeyOf(table[o.i], byName), byName))
    ensures Proper(o, table, updates, n + 1, byName)
    ensures RecordOf(o, table, updates, n + 1, byName) == RecordOf(o, table, updates, n, byName)
  {
    RecordKey(o, table, updates, n, byName);
    AsksOneMore(updates, n, KeyOf(RecordOf(o, table, updates, n, byName), byName), byName);
  }

  lemma AsksOneMore(updates: seq<Artist>, n: nat, key: Key, byName: bool)
    requires n < |updates|
    ensures AsksSinger(updates, n + 1, key, byName)
       <==> AsksSinger(updates, n, key, byName) || (KeyOf(updates[n], byName) == key && updates[n].credits.isSinger)
    ensures AsksAuthor(updates, n + 1, key, byName)
       <==> AsksAuthor(updates, n, key, byName) || (KeyOf(updates[n], byName) == key && updates[n].credits.isAuthor)
  {}

  /** Of two records with one key the later one is an old one that is never found. */
  lemma LaterHidden(table: seq<Artist>, updates: seq<Artist>, n: nat, o: Origin, p: Origin, byName: bool)
    requires n <= |updates| && Proper(o, table, updates, n, byName) && Proper(p, table, updates, n, byName)
    requires KeyOf(RecordOf(o, table, updates, n, byName), byName)
      == KeyOf(RecordOf(p, table, updates, n, byName), byName)
    requires Before(o, p)
    ensures p.Old? && HasKey(table, p.i, KeyOf(table[p.i], byName), byName)
  {
    RecordKey(o, table, updates, n, byName);
    RecordKey(p, table, updates, n, byName);
  }

  /** The artist found first gains the roles of the one handed in. */
  lemma FoundRecord(o: Origin, table: seq<Artist>, updates: seq<Artist>, n: nat, byName: bool)
    requires n < |updates| && Proper(o, table, updates, n, byName)
    requires KeyOf(RecordOf(o, table, updates, n, byName), byName) == KeyOf(updates[n], byName)
    requires o.Old? ==> !HasKey(table, o.i, KeyOf(table[o.i], byName), byName)
    ensures Proper(o, table, updates, n + 1, byName)
    ensures
      var a := RecordOf(o, table, updates, n, byName);
      RecordOf(o, table, updates, n + 1, byName) == a.(credits := Promote(a.credits, updates[n].credits))
  {
    RecordKey(o, table, updates, n, byName);
    AsksOneMore(updates, n, KeyOf(updates[n], byName), byName);
  }

  /** A record with the key is in the table exactly if the old table or an artist handed in has it. */
  lemma KnownIff(
    table: seq<Artist>, updates: seq<Artist>, n: nat, from: seq<Origin>, after: seq<Artist>, key: Key, byName: bool)
    requires n <= |updates| && Account(table, updates, n, from, after, byName)
    ensures HasKey(after, |after|, key, byName)
       <==> HasKey(table, |table|, key, byName) || HasKey(updates, n, key, byName)
  {
    hide RecordOf, Before;
    if HasKey(after, |after|, key, byName) {
      var j :| 0 <= j < |after| && KeyOf(after[j], byName) == key;
      RecordKey(from[j], table, updates, n, byName);
    }
    if HasKey(table, |table|, key, byName) {
      var i :| 0 <= i < |table| && KeyOf(table[i], byName) == key;
      RecordKey(Old(i), table, updates, n, byName);
      Present(table, updates, n, from, after, Old(i), byName);
    } else if HasKey(updates, n, key, byName) {
      var k := FirstWith(updates, n, key, byName);
      RecordKey(Made(k), table, updates, n, byName);
      Present(table, updates, n, from, after, Made(k), byName);
    }
  }

  lemma Present(
    table: seq<Artist>, updates: seq<Artist>, n: nat, from: seq<Origin>, after: seq<Artist>, o: Origin, byName: bool)
    requires n <= |updates| && Account(table, updates, n, from, after, byName) && Proper(o, table, updates, n, byName)
    ensures HasKey(after, |after|, KeyOf(RecordOf(o, table, updates, n, byName), byName), byName)
  {
    hide RecordOf, Before;
    assert o in from;
    var j :| 0 <= j < |from| && from[j] == o;
    assert after[j] == RecordOf(o, table, updates, n, byName);
  }

  lemma {:induction false} FirstWith(updates: seq<Artist>, n: nat, key: Key, byName: bool) returns (k: nat)
    requires n <= |updates| && HasKey(updates, n, key, byName)
    ensures k < n && KeyOf(updates[k], byName) == key && !HasKey(updates, k, key, byName)
  {
    k :| k < n && KeyOf(updates[k], byName) == key;
    if HasKey(updates, k, key, byName) { k := FirstWith(updates, k, key, byName); }
  }

  lemma FoundStep(
    table: seq<Artist>, updates: seq<Artist>, n: nat, from: seq<Origin>, after: seq<Artist>, j: nat, byName: bool)
    requires n < |updates| && Account(table, updates, n, from, after, byName)
    requires j < |after| && KeyOf(after[j], byName) == KeyOf(updates[n], byName)
    requires !HasKey(after, j, KeyOf(updates[n], byName), byName)
    ensures Account(table, updates, n + 1, from,
                    after[j := after[j].(credits := Promote(after[j].credits, updates[n].credits))], byName)
  {
    hide RecordOf, Promote;
    var next := after[j := after[j].(credits := Promote(after[j].credits, updates[n].credits))];
    KnownIff(table, updates, n, from, after, KeyOf(updates[n], byName), byName);
    FoundFirst(table, updates, n, from, after, j, byName);
    forall m | 0 <= m < |after|
      ensures Proper(from[m], table, updates, n + 1, byName)
      ensures next[m] == RecordOf(from[m], table, updates, n + 1, byName)
    {
      if m == j {
        FoundRecord(from[j], table, updates, n, byName);
      } else {
        if KeyOf(after[m], byName) == KeyOf(updates[n], byName) {
          LaterHidden(table, updates, n, from[j], from[m], byName);
        }
        OtherRecord(from[m], table, updates, n, byName);
      }
    }
  }

  /** What is found is not hidden by an earlier record of the old table. */
  lemma FoundFirst(
    table: seq<Artist>, updates: seq<Artist>, n: nat, from: seq<Origin>, after: seq<Artist>, j: nat, byName: bool)
    requires n < |updates| && Account(table, updates, n, from, after, byName)
    requires j < |after| && !HasKey(after, j, KeyOf(after[j], byName), byName)
    ensures from[j].Old? ==> !HasKey(table, from[j].i, KeyOf(table[from[j].i], byName), byName)
  {
    hide RecordOf;
    RecordKey(from[j], table, updates, n, byName);
    if from[j].Old? && HasKey(table, from[j].i, KeyOf(table[from[j].i], byName), byName) {
      var i :| 0 <= i < from[j].i && KeyOf(table[i], byName) == KeyOf(table[from[j].i], byName);
      assert Old(i) in from;
      var m :| 0 <= m < |from| && from[m] == Old(i);
      RecordKey(from[m], table, updates, n, byName);
      assert false;
    }
  }

  lemma InsertedStep(
    table: seq<Artist>, updates: seq<Artist>, n: nat, from: seq<Origin>, after: seq<Artist>, at: nat, x: Artist,
    byName: bool)
    requires n < |updates| && Account(table, updates, n, from, after, byName)
    requires at <= |after| && !HasKey(after, |after|, KeyOf(updates[n], byName), byName)
    requires x == updates[n].(
      credits := Doubled(updates[n].credits), singerIdx := if byName then 0 else updates[n].singerIdx)
    ensures Account(table, updates, n + 1, Insert(from, at, Made(n)), Insert(after, at, x), byName)
  {
    hide RecordOf;
    var origins, next := Insert(from, at, Made(n)), Insert(after, at, x);
    KnownIff(table, updates, n, from, after, KeyOf(updates[n], byName), byName);
    NewRecord(table, updates, n, byName);
    forall m | 0 <= m < |next|
      ensures Proper(origins[m], table, updates, n + 1, byName)
      ensures next[m] == RecordOf(origins[m], table, updates, n + 1, byName)
    {
      if m != at {
        var j := if m < at then m else m - 1;
        assert KeyOf(after[j], byName) != KeyOf(updates[n], byName);
        OtherRecord(from[j], table, updates, n, byName);
      }
    }
    InsertedOrder(from, at, Made(n));
    InsertedAll(from, at, Made(n));
  }

  lemma InsertedAll(from: seq<Origin>, at: nat, o: Origin)
    requires at <= |from|
    ensures o in Insert(from, at, o) && forall p | p in from :: p in Insert(from, at, o)
  {
    var after := Insert(from, at, o);
    assert after[at] == o;
    forall p | p in from
      ensures p in after
    {
      var j :| 0 <= j < |from| && from[j] == p;
      assert after[if j < at then j else j + 1] == p;
    }
  }

  lemma InsertedOrder(from: seq<Origin>, at: nat, o: Origin)
    requires at <= |from| && o.Made? && o !in from
    requires forall j, m | 0 <= j < m < |from| :: Before(from[j], from[m])
    ensures forall j, m | 0 <= j < m < |from| + 1 :: Before(Insert(from, at, o)[j], Insert(from, at, o)[m])
  {}

  lemma NewRecord(table: seq<Artist>, updates: seq<Artist>, n: nat, byName: bool)
    requires Unknown(table, updates, n, byName)
    ensures
      var u := updates[n];
      RecordOf(Made(n), table, updates, n + 1, byName)
      == u.(credits := Doubled(u.credits), singerIdx := if byName then 0 else u.singerIdx)
  {
    AsksOneMore(updates, n, KeyOf(updates[n], byName), byName);
  }

  function Olds(n: nat): seq<Origin> { seq(n, i requires 0 <= i < n => Old(i)) }

  lemma AccountSize(
    table: seq<Artist>, updates: seq<Artist>, n: nat, from: seq<Origin>, after: seq<Artist>, byName: bool)
    requires n <= |updates| && Account(table, updates, n, from, after, byName)
    ensures |from| == |after|
  {}

  lemma AccountStart(table: seq<Artist>, updates: seq<Artist>, byName: bool)
    ensures Account(table, updates, 0, Olds(|table|), table, byName)
  {
    var from := Olds(|table|);
    forall i | 0 <= i < |table|
      ensures Old(i) in from
    {
      assert from[i] == Old(i);
    }
  }

  // ---- the merge

  lemma SingerKeys(artists: seq<Artist>, n: nat, singerIdx: U32)
    requires n <= |artists|
    ensures HasKey(artists, n, ByIndex(singerIdx), false)
       <==> exists i | 0 <= i < n :: artists[i].singerIdx == singerIdx
  {}

  /** Every record of the merged table is an old one, with the roles it had and those the update's artists of
      its singerIdx have, or the first of the update's artists of a singerIdx the table did not have, with
      the roles of all of them and its counts twice. Nobody is lost and nobody comes twice. */
  lemma {:induction false} MergeArtistsMakes(cat: Catalogue, updates: seq<Artist>, n: nat, less: Less)
    returns (from: seq<Origin>)
    requires n <= |updates|
    ensures Account(cat.artists, updates, n, from, MergeArtists(cat, updates, n, less).cat.artists, false)
  {
    hide Account, Promote, Doubled, HasKey, Insert;
    if n == 0 {
      from := Olds(|cat.artists|);
      AccountStart(cat.artists, updates, false);
    } else {
      from := MergeArtistsMakes(cat, updates, n - 1, less);
      var run, a := MergeArtists(cat, updates, n - 1, less), updates[n - 1];
      var artists := run.cat.artists;
      var j := FirstBySinger(artists, a.singerIdx);
      SingerKeys(artists, j, a.singerIdx);
      if j < |artists| {
        FoundStep(cat.artists, updates, n - 1, from, artists, j, false);
      } else {
        var at := PlaceArtist(artists, a, run.cursor, less);
        InsertedStep(cat.artists, updates, n - 1, from, artists, at, a.(credits := Doubled(a.credits)), false);
        AccountSize(cat.artists, updates, n - 1, from, artists, false);
        from := Insert(from, at, Made(n - 1));
      }
    }
  }

  /** If the index has no singerIdx twice: a merged artist is a singer (an author) exactly if the index or the update
      has one of that singerIdx who is. */
  lemma MergedRolesIff(cat: Catalogue, updates: seq<Artist>, less: Less, j: nat)
    requires DistinctSingers(cat.artists) && j < |MergeArtists(cat, updates, |updates|, less).cat.artists|
    ensures
      var a := MergeArtists(cat, updates, |updates|, less).cat.artists[j];
      && (a.credits.isSinger <==> HasRole(cat.artists, a.singerIdx, true) || HasRole(updates, a.singerIdx, true))
      && (a.credits.isAuthor <==> HasRole(cat.artists, a.singerIdx, false) || HasRole(updates, a.singerIdx, false))
  {
    hide MergeArtists;
    var after, n := MergeArtists(cat, updates, |updates|, less).cat.artists, |updates|;
    var from := MergeArtistsMakes(cat, updates, n, less);
    var a, key := after[j], ByIndex(after[j].singerIdx);
    RecordKey(from[j], cat.artists, updates, n, false);
    assert AsksSinger(updates, n, key, false) <==> HasRole(updates, a.singerIdx, true);
    assert AsksAuthor(updates, n, key, false) <==> HasRole(updates, a.singerIdx, false);
    match from[j]
    case Old(i) =>
      assert cat.artists[i].singerIdx == a.singerIdx;
      assert !HasKey(cat.artists, i, KeyOf(cat.artists[i], false), false);
    case Made(k) =>
      assert !HasKey(cat.artists, |cat.artists|, key, false);
      SingerKeys(cat.artists, |cat.artists|, a.singerIdx);
  }

  ghost predicate HasRole(artists: seq<Artist>, singerIdx: U32, singer: bool)
  {
    exists i | 0 <= i < |artists| :: artists[i].singerIdx == singerIdx
      && if singer then artists[i].credits.isSinger else artists[i].credits.isAuthor
  }

  // ---- the add-song path

  lemma NameKeys(artists: seq<Artist>, n: nat, name: Str)
    requires n <= |artists|
    ensures HasKey(artists, n, ByName(name), true) <==> exists i | 0 <= i < n :: artists[i].name == name
  {}

  lemma AddOneMakes(
    table: seq<Artist>, updates: seq<Artist>, n: nat, run: AddRun, from: seq<Origin>, hole: Artist, less: Less)
    returns (next: seq<Origin>)
    requires n < |updates| == |run.indexes| && run.cursor <= |run.cat.artists|
    requires HasName(run.cat.artists, updates[n].name) || AskedIndex(run, updates[n]) < |run.cat.artists|
    requires Account(table, updates, n, from, run.cat.artists, true)
    ensures Account(table, updates, n + 1, next, AddOne(run, n, updates[n], hole, less).cat.artists, true)
  {
    hide Account, Promote, Doubled, HasName, HasKey, Insert, Bump, ShiftSongs;
    var a, artists := updates[n], run.cat.artists;
    NamedIff(artists, a.name);
    var j := FirstByName(artists, a.name, 0);
    NameKeys(artists, j, a.name);
    if j < |artists| {
      FoundStep(table, updates, n, from, artists, j, true);
      next := from;
    } else {
      var at := FindArtist(artists, a.name, AskedIndex(run, a), less);
      InsertedStep(table, updates, n, from, artists, at, Fresh(a), true);
      AccountSize(table, updates, n, from, artists, true);
      next := Insert(from, at, Made(n));
    }
  }

  /** The same for artists handed in by name, if no new one goes to the end of the table. */
  lemma {:induction false} AddArtistsMakes(
    cat: Catalogue, updates: seq<Artist>, indexes: seq<U32>, n: nat, holes: seq<Artist>, less: Less)
    returns (from: seq<Origin>)
    requires n <= |updates| == |indexes| == |holes| && |cat.artists| + |updates| < NO_ARTIST
    requires Insertable(cat.artists, updates, n)
    ensures Account(cat.artists, updates, n, from, AddArtists(cat, updates, indexes, n, holes, less).cat.artists, true)
  {
    hide Account, AddOne, Tracked, New, HasName;
    if n == 0 {
      from := Olds(|cat.artists|);
      AccountStart(cat.artists, updates, true);
    } else {
      InsertableInit(cat.artists, updates, n);
      from := AddArtistsMakes(cat, updates, indexes, n - 1, holes, less);
      var run := AddArtists(cat, updates, indexes, n - 1, holes, less);
      AddArtistsTracked(cat, updates, indexes, n - 1, holes, less);
      AddArtistsGrows(cat, updates, indexes, n - 1, holes, less);
      TrackedStep(cat, updates, n - 1, run, holes[n - 1], less);
      from := AddOneMakes(cat.artists, updates, n - 1, run, from, holes[n - 1], less);
    }
  }

  /** Where an insertIndex leads, if it leads to a record of its artist's name: for a new artist, to the record made
      of it; otherwise to one of the table, or to that of the first namesake handed in. */
  lemma LeadsTo(
    table: seq<Artist>, updates: seq<Artist>, run: AddRun, from: seq<Origin>, i: nat)
    requires |run.indexes| == |updates| && Account(table, updates, |updates|, from, run.cat.artists, true)
    requires Designates(run, updates, i)
    ensures run.indexes[i] < |from|
    ensures New(table, updates, i) ==> from[run.indexes[i]] == Made(i)
    ensures
      match from[run.indexes[i]]
      case Old(j) => j < |table| && table[j].name == updates[i].name
      case Made(k) => k <= i && New(table, updates, k) && updates[k].name == updates[i].name
  {
    hide RecordOf, Before;
    var o, n := from[run.indexes[i]], |updates|;
    assert Proper(o, table, updates, n, true);
    assert run.cat.artists[run.indexes[i]] == RecordOf(o, table, updates, n, true);
    RecordKey(o, table, updates, n, true);
    NewIsUnknown(table, updates, i);
    if o.Made? { NewIsUnknown(table, updates, o.k); }
  }

  lemma NewIsUnknown(table: seq<Artist>, updates: seq<Artist>, i: nat)
    requires i < |updates|
    ensures New(table, updates, i) <==> Unknown(table, updates, i, true)
  {
    assert forall j | 0 <= j < i :: updates[..i][j] == updates[j];
    NameKeys(table, |table|, updates[i].name);
    NameKeys(updates, i, updates[i].name);
  }
}
