/** addNewSongList collects the artists of the songs to be added into one list without repetition;
    the songs' slots number its entries. */
module ArtistList {
  import opened Bytes
  import opened Records
  import opened Catalogue
  import opened References
  import opened AddSong

  /** An artist as a song names it; the cover's number tells namesakes apart. */
  datatype Named = Named(name: Str, cover: U32, language: U8)

  datatype Asking = Asking(singers: seq<Named>, authors: seq<Named>)

  predicate Is(a: Artist, n: Named) { a.name == n.name && a.singerIdx == n.cover }

  predicate HasRole(a: Artist, singer: bool) { if singer then a.credits.isSinger else a.credits.isAuthor }

  function WithRole(a: Artist, singer: bool): Artist
  {
    a.(credits := if singer then a.credits.(isSinger := true) else a.credits.(isAuthor := true))
  }

  function NewPerson(n: Named, pinyin: Str -> Str): Artist
  {
    Person(Credits(10, false, false, 0, 0, n.language, 1, 0), n.name, pinyin(n.name), n.cover)
  }

  /** No two entries are the same artist. */
  ghost predicate NoRepeats(people: seq<Artist>)
  {
    forall i, j | 0 <= i < j < |people| ::
      people[i].name != people[j].name || people[i].singerIdx != people[j].singerIdx
  }

  // ---- what the list says, told from the namings in the order they are met

  datatype Naming = Naming(who: Named, singer: bool)

  /** The first four of a song's artists of one role. */
  function NamingsOf(list: seq<Named>, singer: bool): seq<Naming>
  {
    seq(FirstFour(list), k requires 0 <= k < FirstFour(list) => Naming(list[k], singer))
  }

  function FirstFour(list: seq<Named>): nat { if |list| < MAX_ARTIST_PER_SONG then |list| else MAX_ARTIST_PER_SONG }

  /** Song by song, singers before authors. */
  function Namings(asks: seq<Asking>, n: nat): seq<Naming>
    requires n <= |asks|
  {
    if n == 0 then []
    else Namings(asks, n - 1) + NamingsOf(asks[n - 1].singers, true) + NamingsOf(asks[n - 1].authors, false)
  }

  predicate Same(a: Named, b: Named) { a.name == b.name && a.cover == b.cover }

  ghost predicate IsFirst(ns: seq<Naming>, m: nat)
  {
    m < |ns| && forall l | 0 <= l < m :: !Same(ns[l].who, ns[m].who)
  }

  ghost predicate Given(ns: seq<Naming>, who: Named, singer: bool)
  {
    exists l | 0 <= l < |ns| :: Same(ns[l].who, who) && ns[l].singer == singer
  }

  /** The entry of an artist: the language of its first naming, the roles of all, ten words and one song as author
      whatever it is. */
  ghost predicate IsEntry(a: Artist, ns: seq<Naming>, who: Named, pinyin: Str -> Str)
  {
    && a.name == who.name && a.pinyin == pinyin(who.name) && a.singerIdx == who.cover
    && a.credits == Credits(10, Given(ns, who, true), Given(ns, who, false), 0, 0, who.language, 1, 0)
  }

  /** Entry i was made at naming firsts[i]: one for each artist named, in the order they are first named. */
  ghost predicate Listed(ns: seq<Naming>, firsts: seq<nat>, people: seq<Artist>, pinyin: Str -> Str)
  {
    && |firsts| == |people|
    && (forall i | 0 <= i < |people| ::
          IsFirst(ns, firsts[i]) && IsEntry(people[i], ns, ns[firsts[i]].who, pinyin))
    && (forall i, j | 0 <= i < j < |firsts| :: firsts[i] < firsts[j])
    && (forall m | 0 <= m < |ns| && IsFirst(ns, m) :: m in firsts)
  }

  lemma FirstsStay(ns: seq<Naming>, x: Naming, m: nat)
    requires m < |ns|
    ensures IsFirst(ns + [x], m) <==> IsFirst(ns, m)
    ensures (ns + [x])[m] == ns[m]
  {
    if IsFirst(ns + [x], m) {
      forall l | 0 <= l < m
        ensures !Same(ns[l].who, ns[m].who)
      {
        assert !Same((ns + [x])[l].who, (ns + [x])[m].who);
      }
    }
  }

  lemma GivenMore(ns: seq<Naming>, x: Naming, who: Named, singer: bool)
    ensures Given(ns + [x], who, singer) <==> Given(ns, who, singer) || (Same(x.who, who) && x.singer == singer)
  {
    var more := ns + [x];
    if Given(ns, who, singer) {
      var l :| 0 <= l < |ns| && Same(ns[l].who, who) && ns[l].singer == singer;
      assert more[l] == ns[l];
    }
    if Same(x.who, who) && x.singer == singer { assert more[|ns|] == x; }
  }

  lemma {:induction false} FirstLike(ns: seq<Naming>, m: nat) returns (l: nat)
    requires m < |ns|
    ensures l <= m && IsFirst(ns, l) && Same(ns[l].who, ns[m].who)
  {
    if IsFirst(ns, m) {
      l := m;
    } else {
      var k :| 0 <= k < m && Same(ns[k].who, ns[m].who);
      l := FirstLike(ns, k);
    }
  }

  /** Two entries of one artist would have been made at the same naming. */
  lemma ListedOnce(ns: seq<Naming>, firsts: seq<nat>, people: seq<Artist>, pinyin: Str -> Str)
    requires Listed(ns, firsts, people, pinyin)
    ensures NoRepeats(people)
  {
    forall i, j | 0 <= i < j < |people|
      ensures people[i].name != people[j].name || people[i].singerIdx != people[j].singerIdx
    {
      assert IsEntry(people[i], ns, ns[firsts[i]].who, pinyin) && IsEntry(people[j], ns, ns[firsts[j]].who, pinyin);
      assert IsFirst(ns, firsts[j]) && firsts[i] < firsts[j];
      assert !Same(ns[firsts[i]].who, ns[firsts[j]].who);
    }
  }

  lemma FoundListed(
    ns: seq<Naming>, firsts: seq<nat>, people: seq<Artist>, pinyin: Str -> Str, x: Naming, idx: nat)
    requires Listed(ns, firsts, people, pinyin) && idx < |people| && Is(people[idx], x.who)
    ensures Listed(ns + [x], firsts, people[idx := WithRole(people[idx], x.singer)], pinyin)
  {
    hide Given;
    var more, after := ns + [x], people[idx := WithRole(people[idx], x.singer)];
    ListedOnce(ns, firsts, people, pinyin);
    forall i | 0 <= i < |people|
      ensures IsFirst(more, firsts[i]) && IsEntry(after[i], more, more[firsts[i]].who, pinyin)
    {
      FirstsStay(ns, x, firsts[i]);
      GivenMore(ns, x, ns[firsts[i]].who, true);
      GivenMore(ns, x, ns[firsts[i]].who, false);
      assert IsEntry(people[i], ns, ns[firsts[i]].who, pinyin);
    }
    assert more[firsts[idx]] == ns[firsts[idx]] && more[|ns|] == x;
    assert Same(more[firsts[idx]].who, more[|ns|].who);
    forall m | 0 <= m < |more| && IsFirst(more, m)
      ensures m in firsts
    {
      if m < |ns| { FirstsStay(ns, x, m); }
    }
  }

  lemma AddedListed(ns: seq<Naming>, firsts: seq<nat>, people: seq<Artist>, pinyin: Str -> Str, x: Naming)
    requires Listed(ns, firsts, people, pinyin) && forall i | 0 <= i < |people| :: !Is(people[i], x.who)
    ensures Listed(ns + [x], firsts + [|ns|], people + [WithRole(NewPerson(x.who, pinyin), x.singer)], pinyin)
  {
    hide Given;
    var more, after := ns + [x], people + [WithRole(NewPerson(x.who, pinyin), x.singer)];
    var places := firsts + [|ns|];
    NotNamed(ns, firsts, people, pinyin, x.who);
    forall i | 0 <= i < |people|
      ensures IsFirst(more, firsts[i]) && IsEntry(after[i], more, more[firsts[i]].who, pinyin)
    {
      FirstsStay(ns, x, firsts[i]);
      GivenMore(ns, x, ns[firsts[i]].who, true);
      GivenMore(ns, x, ns[firsts[i]].who, false);
      assert IsEntry(people[i], ns, ns[firsts[i]].who, pinyin);
    }
    GivenMore(ns, x, x.who, true);
    GivenMore(ns, x, x.who, false);
    NotGiven(ns, x.who);
    assert IsFirst(more, |ns|) by { assert more[|ns|] == x && forall l | 0 <= l < |ns| :: more[l] == ns[l]; }
    forall m | 0 <= m < |more| && IsFirst(more, m)
      ensures m in places
    {
      if m < |ns| { FirstsStay(ns, x, m); } else { assert places[|firsts|] == m; }
    }
  }

  lemma NotNamed(ns: seq<Naming>, firsts: seq<nat>, people: seq<Artist>, pinyin: Str -> Str, who: Named)
    requires Listed(ns, firsts, people, pinyin) && forall i | 0 <= i < |people| :: !Is(people[i], who)
    ensures forall l | 0 <= l < |ns| :: !Same(ns[l].who, who)
  {
    hide Given;
    forall m | 0 <= m < |ns|
      ensures !Same(ns[m].who, who)
    {
      var l := FirstLike(ns, m);
      assert l in firsts;
      var i :| 0 <= i < |firsts| && firsts[i] == l;
      assert IsEntry(people[i], ns, ns[firsts[i]].who, pinyin);
    }
  }

  lemma NotGiven(ns: seq<Naming>, who: Named)
    requires forall l | 0 <= l < |ns| :: !Same(ns[l].who, who)
    ensures !Given(ns, who, true) && !Given(ns, who, false)
  {}

  /** The list only got longer, its entries only more roles. */
  ghost predicate Grew(before: seq<Artist>, after: seq<Artist>)
  {
    |before| <= |after| && forall i | 0 <= i < |before| :: SamePerson(before[i], after[i])
  }

  lemma GrewTransitive(a: seq<Artist>, b: seq<Artist>, c: seq<Artist>)
    requires Grew(a, b) && Grew(b, c)
    ensures Grew(a, c)
  {
    forall i | 0 <= i < |a|
      ensures SamePerson(a[i], c[i])
    {
      assert SamePerson(a[i], b[i]) && SamePerson(b[i], c[i]);
    }
  }

  /** The slots name the first four of the list, each an entry with the role. */
  ghost predicate SlotsSay(list: seq<Named>, s: Slots, people: seq<Artist>, singer: bool)
  {
    && Live(s) == (if |list| < MAX_ARTIST_PER_SONG then |list| else MAX_ARTIST_PER_SONG)
    && forall k | 0 <= k < Live(s) :: s[k] < |people| && Is(people[s[k]], list[k]) && HasRole(people[s[k]], singer)
  }

  lemma SlotsStillSay(list: seq<Named>, s: Slots, before: seq<Artist>, after: seq<Artist>, singer: bool)
    requires SlotsSay(list, s, before, singer) && Grew(before, after)
    ensures SlotsSay(list, s, after, singer)
  {
    forall k | 0 <= k < Live(s)
      ensures s[k] < |after| && Is(after[s[k]], list[k]) && HasRole(after[s[k]], singer)
    {
      assert SamePerson(before[s[k]], after[s[k]]);
    }
  }

  /** The search, the push_back if it fails, and the role. */
  method FindOrAdd(
    people: seq<Artist>, n: Named, singer: bool, pinyin: Str -> Str, ghost ns: seq<Naming>, ghost firsts: seq<nat>)
    returns (after: seq<Artist>, idx: nat, ghost places: seq<nat>)
    requires NoRepeats(people) && Listed(ns, firsts, people, pinyin)
    ensures Listed(ns + [Naming(n, singer)], places, after, pinyin)
    ensures NoRepeats(after) && Grew(people, after) && |after| <= |people| + 1
    ensures idx < |after| && Is(after[idx], n) && HasRole(after[idx], singer)
  {
    hide Listed;
    idx := 0;
    after := people;
    places := firsts;
    while idx < |people| && !Is(people[idx], n)
      invariant idx <= |people| && forall i | 0 <= i < idx :: !Is(people[i], n)
    {
      idx := idx + 1;
    }
    if idx >= |people| {
      AddedListed(ns, firsts, people, pinyin, Naming(n, singer));
      places := firsts + [|ns|];
      after := after + [NewPerson(n, pinyin)];
      assert after[idx := WithRole(after[idx], singer)] == people + [WithRole(NewPerson(n, pinyin), singer)];
    } else {
      FoundListed(ns, firsts, people, pinyin, Naming(n, singer), idx);
    }
    after := after[idx := WithRole(after[idx], singer)];
  }

  /** The artist loop of one song, for one role: at most four, the rest of the slots closed. */
  method ListSlots(
    people: seq<Artist>, list: seq<Named>, singer: bool, pinyin: Str -> Str, ghost ns: seq<Naming>,
    ghost firsts: seq<nat>)
    returns (after: seq<Artist>, s: Slots, ghost places: seq<nat>)
    requires NoRepeats(people) && |people| + MAX_ARTIST_PER_SONG < NO_ARTIST
    requires Listed(ns, firsts, people, pinyin)
    ensures Listed(ns + NamingsOf(list, singer), places, after, pinyin)
    ensures NoRepeats(after) && Grew(people, after) && |after| <= |people| + MAX_ARTIST_PER_SONG
    ensures SlotsSay(list, s, after, singer)
  {
    hide NoRepeats, Grew, Is, HasRole, Listed, NamingsOf;
    ghost var met := NamingsOf(list, singer);
    places := firsts;
    MetSize(list, singer);
    assert ns + met[..0] == ns;
    s := [NO_ARTIST, NO_ARTIST, NO_ARTIST, NO_ARTIST];
    after := people;
    NothingGrew(people);
    var i := 0;
    while i < |list| && i < MAX_ARTIST_PER_SONG
      invariant i <= |list| && i <= MAX_ARTIST_PER_SONG
      invariant NoRepeats(after) && Grew(people, after) && |after| <= |people| + i
      invariant Listed(ns + met[..i], places, after, pinyin)
      invariant SlotsSay(list[..i], s, after, singer)
      invariant forall k | i <= k < MAX_ARTIST_PER_SONG :: s[k] == NO_ARTIST
    {
      var next, idx, found := FindOrAdd(after, list[i], singer, pinyin, ns + met[..i], places);
      MetNext(ns, list, singer, i);
      places := found;
      SlotsStillSay(list[..i], s, after, next, singer);
      GrewTransitive(people, after, next);
      OneMoreSlot(list, i, s, next, singer, idx);
      s := s[i := Wrap16(idx)];
      after := next;
      i := i + 1;
    }
    assert met[..i] == met;
    if i < |list| { FourSlots(list, s, after, singer); } else { assert list[..i] == list; }
  }

  lemma MetSize(list: seq<Named>, singer: bool)
    ensures |NamingsOf(list, singer)| == FirstFour(list)
  {}

  lemma MetNext(ns: seq<Naming>, list: seq<Named>, singer: bool, i: nat)
    requires i < FirstFour(list)
    ensures
      var met := NamingsOf(list, singer);
      |met| == FirstFour(list) && (ns + met[..i]) + [Naming(list[i], singer)] == ns + met[..i + 1]
  {
    var met := NamingsOf(list, singer);
    assert met[..i + 1] == met[..i] + [met[i]];
  }

  lemma NothingGrew(people: seq<Artist>)
    ensures Grew(people, people)
  {}

  lemma OneMoreSlot(list: seq<Named>, i: nat, s: Slots, people: seq<Artist>, singer: bool, idx: nat)
    requires i < |list| && i < MAX_ARTIST_PER_SONG && idx < |people| < NO_ARTIST
    requires SlotsSay(list[..i], s, people, singer) && forall k | i <= k < MAX_ARTIST_PER_SONG :: s[k] == NO_ARTIST
    requires Is(people[idx], list[i]) && HasRole(people[idx], singer)
    ensures SlotsSay(list[..i + 1], s[i := Wrap16(idx)], people, singer)
  {
    hide Is, HasRole;
    var t := s[i := Wrap16(idx)];
    assert forall k | 0 <= k < i :: t[k] == s[k] && list[..i + 1][k] == list[..i][k];
    assert Live(t) == i + 1;
  }

  lemma FourSlots(list: seq<Named>, s: Slots, people: seq<Artist>, singer: bool)
    requires |list| >= MAX_ARTIST_PER_SONG && SlotsSay(list[..MAX_ARTIST_PER_SONG], s, people, singer)
    ensures SlotsSay(list, s, people, singer)
  {
    hide Is, HasRole;
    assert forall k | 0 <= k < MAX_ARTIST_PER_SONG :: list[..MAX_ARTIST_PER_SONG][k] == list[k];
  }

  /** The slots of one song after the loops. */
  datatype Pair = Pair(singers: Slots, authors: Slots)

  ghost predicate SongSays(ask: Asking, p: Pair, people: seq<Artist>)
  {
    SlotsSay(ask.singers, p.singers, people, true) && SlotsSay(ask.authors, p.authors, people, false)
  }

  /** The loop over the songs: an artist named twice, by whichever songs and in whichever role, is
      listed once, and every slot leads to the entry it was made for. */
  method ListArtists(asks: seq<Asking>, pinyin: Str -> Str)
    returns (people: seq<Artist>, slots: seq<Pair>, ghost firsts: seq<nat>)
    requires 2 * MAX_ARTIST_PER_SONG * |asks| < NO_ARTIST
    ensures NoRepeats(people) && |people| <= 2 * MAX_ARTIST_PER_SONG * |asks|
    ensures Listed(Namings(asks, |asks|), firsts, people, pinyin)
    ensures |slots| == |asks| && forall z | 0 <= z < |asks| :: SongSays(asks[z], slots[z], people)
  {
    hide NoRepeats, Grew, SlotsSay, Listed, NamingsOf;
    people, slots, firsts := [], [], [];
    NothingListed(pinyin);
    NoRepeatsYet();
    for z := 0 to |asks|
      invariant NoRepeats(people) && |people| <= 2 * MAX_ARTIST_PER_SONG * z
      invariant Listed(Namings(asks, z), firsts, people, pinyin)
      invariant |slots| == z && forall y | 0 <= y < z :: SongSays(asks[y], slots[y], people)
    {
      ghost var ns := Namings(asks, z);
      var more, singers, places := ListSlots(people, asks[z].singers, true, pinyin, ns, firsts);
      var after, authors, rest := ListSlots(
        more, asks[z].authors, false, pinyin, ns + NamingsOf(asks[z].singers, true), places);
      firsts := rest;
      SlotsStillSay(asks[z].singers, singers, more, after, true);
      GrewTransitive(people, more, after);
      forall y | 0 <= y < z
        ensures SongSays(asks[y], slots[y], after)
      {
        assert SongSays(asks[y], slots[y], people);
        SlotsStillSay(asks[y].singers, slots[y].singers, people, after, true);
        SlotsStillSay(asks[y].authors, slots[y].authors, people, after, false);
      }
      slots := slots + [Pair(singers, authors)];
      people := after;
    }
  }

  lemma NothingListed(pinyin: Str -> Str)
    ensures Listed([], [], [], pinyin)
  {}

  lemma NoRepeatsYet()
    ensures NoRepeats([])
  {}

  /** A request made this way is what insert_song asks for: roles given, indices in range. */
  lemma SaysGivesRoles(list: seq<Named>, s: Slots, people: seq<Artist>, singer: bool)
    requires SlotsSay(list, s, people, singer)
    ensures RolesGiven(s, if singer then Singers(people) else Authors(people))
  {}
}
