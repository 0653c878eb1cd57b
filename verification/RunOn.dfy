/** Tables of songs some of whose clip lists have run on into lists stored after them. Such a table reads
    like the one it should be in everything but clip lists. */
module RunOn {
  import opened Bytes
  import opened Records
  import opened Catalogue
  import opened Conservation
  import opened Image

  function NoClips(e: Entry): Entry { e.(clips := None) }

  function Bare(songs: seq<Entry>): (r: seq<Entry>)
    ensures |r| == |songs|
  {
    seq(|songs|, i requires 0 <= i < |songs| => NoClips(songs[i]))
  }

  lemma BareAt(a: seq<Entry>, b: seq<Entry>, i: nat)
    requires Bare(a) == Bare(b) && i < |a|
    ensures |a| == |b| && a[i].(clips := None) == b[i].(clips := None)
  {
    assert |a| == |Bare(a)| == |Bare(b)| == |b|;
    assert Bare(a)[i] == Bare(b)[i];
  }

  lemma BareSame(a: seq<Entry>, b: seq<Entry>)
    requires Bare(a) == Bare(b)
    ensures |a| == |b| && forall i | 0 <= i < |a| :: a[i].info == b[i].info && a[i].name == b[i].name
  {
    assert |a| == |Bare(a)| == |Bare(b)| == |b|;
    forall i | 0 <= i < |a|
      ensures a[i].info == b[i].info && a[i].name == b[i].name
    {
      BareAt(a, b, i);
    }
  }

  lemma BareFinds(a: seq<Entry>, b: seq<Entry>, name: Str, start: nat, less: Less)
    requires Bare(a) == Bare(b) && start <= |a|
    ensures |a| == |b| && FindSong(a, name, start, less) == FindSong(b, name, start, less)
  {
    BareSame(a, b);
  }

  lemma BareHas(a: seq<Entry>, b: seq<Entry>, code6: U32)
    requires Bare(a) == Bare(b)
    ensures HasCode6(a, code6) <==> HasCode6(b, code6)
  {
    BareSame(a, b);
  }

  lemma BareInsert(a: seq<Entry>, b: seq<Entry>, at: nat, x: Entry)
    requires Bare(a) == Bare(b) && at <= |a|
    ensures |a| == |b| && Bare(Insert(a, at, x)) == Bare(Insert(b, at, x))
  {
    BareSame(a, b);
    var c, d := Insert(a, at, x), Insert(b, at, x);
    forall i | 0 <= i < |c|
      ensures NoClips(c[i]) == NoClips(d[i])
    {
      if i < at { BareAt(a, b, i); }
      if i > at { BareAt(a, b, i - 1); }
    }
  }

  ghost predicate LongerAt(a: seq<Entry>, b: seq<Entry>, p: nat)
  {
    && p < |a| && p < |b| && a[p].clips.Some? && b[p].clips.Some?
    && |a[p].clips.value| > |b[p].clips.value|
  }

  /** Some clip list of a is longer than it should be. */
  ghost predicate Longer(a: seq<Entry>, b: seq<Entry>) { exists p :: LongerAt(a, b, p) }

  /** The table reads as songs, if its lists are clear; like songs, with a list run on, if not. */
  ghost predicate Like(img: Image, songs: seq<Entry>, clear: bool)
  {
    && Bare(Read(img).songs) == Bare(songs)
    && if clear then Read(img).songs == songs else Longer(Read(img).songs, songs)
  }

  lemma LikeItself(img: Image)
    ensures Like(img, Read(img).songs, true)
  {}

  lemma LikeIff(img: Image, songs: seq<Entry>, clear: bool)
    requires Like(img, songs, clear)
    ensures Read(img).songs == songs <==> clear
  {
    if !clear {
      var p: nat :| LongerAt(Read(img).songs, songs, p);
    }
  }

  // ---- one song more

  lemma {:induction false} HighRunGrows(pool: Str, more: Str, off: nat)
    ensures HighRun(pool + more, off) >= HighRun(pool, off)
    decreases |pool| - off
  {
    if off < |pool| && High(pool[off]) {
      assert (pool + more)[off] == pool[off];
      HighRunGrows(pool, more, off + 1);
    }
  }

  lemma ClipListGrows(pool: Str, more: Str, off: nat)
    requires ClipReadable(pool, off)
    ensures ClipReadable(pool + more, off) && |ClipList(pool + more, off)| >= |ClipList(pool, off)|
  {
    assert (pool + more)[off] == pool[off];
    HighRunGrows(pool, more, off + ClipFixed(pool, off));
    ClipListSub(pool, off);
    ClipListSub(pool + more, off);
  }

  /** Growing the clip pool leaves every song but its list, and no list shorter. */
  lemma GrownSongs(img: Image, after: Image, i: nat)
    requires Grown(img, after) && Sound(img) && i < |img.songs|
    ensures |Read(after).songs| == |Read(img).songs| == |img.songs|
    ensures
      var a, b := Read(img).songs[i], Read(after).songs[i];
      && NoClips(a) == NoClips(b)
      && (a.clips.Some? <==> b.clips.Some?)
      && (a.clips.Some? ==> |b.clips.value| >= |a.clips.value|)
      && (a.clips.Some? && b != a ==> |b.clips.value| > |a.clips.value|)
      && (a.clips.None? ==> b == a)
  {
    hide ClipList, ClipReadable, CString;
    var s := img.songs[i];
    assert SoundSong(img, s);
    GrownString(img.songNames, after.songNames, s.name);
    GrownString(img.songPys, after.songPys, s.pinyin);
    if s.clips != NO_CLIPS {
      var more := after.clips[|img.clips|..];
      assert after.clips == img.clips + more;
      ClipListGrows(img.clips, more, s.clips);
      ListGrown(img.clips, more, s.clips);
    }
  }

  lemma ListGrown(pool: Str, more: Str, off: nat)
    requires ClipReadable(pool, off)
    ensures ClipReadable(pool + more, off)
    ensures
      |ClipList(pool + more, off)| == |ClipList(pool, off)| ==> ClipList(pool + more, off) == ClipList(pool, off)
  {
    ClipListGrows(pool, more, off);
    hide ClipList, ClipReadable;
    ClipListShape(pool, off);
    ClipListShape(pool + more, off);
    var a, b := ClipList(pool, off), ClipList(pool + more, off);
    if |a| == |b| {
      forall k | 0 <= k < |a|
        ensures a[k] == b[k]
      {
        assert pool[off + k] == a[off + k - off] && (pool + more)[off + k] == b[off + k - off];
      }
    }
  }

  lemma LikeGrown(img: Image, after: Image, songs: seq<Entry>, clear: bool)
    requires Grown(img, after) && Sound(img) && Like(img, songs, clear)
    ensures Sound(after) && Like(after, songs, clear && NotRunOn(img, after.clips[|img.clips|..]))
  {
    hide Sound, Grown, NotRunOn, Read, Bare;
    var a, b := Read(img).songs, Read(after).songs;
    GrownRead(img, after);
    GrownSound(img, after);
    GrownBare(img, after);
    GrownSame(img, after);
    if !clear {
      var p: nat :| LongerAt(a, songs, p);
      ReadSizes(img);
      GrownSongs(img, after, p);
      assert LongerAt(b, songs, p);
    } else if !NotRunOn(img, after.clips[|img.clips|..]) {
      ReadSizes(img);
      ReadSizes(after);
      SongsDiffer(Read(img), Read(after));
      var p :| 0 <= p < |a| && a[p] != b[p];
      GrownSongs(img, after, p);
      assert LongerAt(b, songs, p);
    }
  }

  lemma SongsDiffer(c: Catalogue, d: Catalogue)
    requires c != d && c.artists == d.artists && |c.songs| == |d.songs|
    ensures exists p | 0 <= p < |c.songs| :: c.songs[p] != d.songs[p]
  {
    assert c.songs != d.songs;
  }

  lemma GrownSame(img: Image, after: Image)
    requires Grown(img, after)
    ensures |after.songs| == |img.songs| && |img.clips| <= |after.clips|
  {}

  lemma GrownBare(img: Image, after: Image)
    requires Grown(img, after) && Sound(img)
    ensures Bare(Read(after).songs) == Bare(Read(img).songs)
  {
    hide Sound, Grown, Read;
    ReadSizes(img);
    ReadSizes(after);
    GrownSame(img, after);
    forall i | 0 <= i < |img.songs|
      ensures NoClips(Read(after).songs[i]) == NoClips(Read(img).songs[i])
    {
      GrownSongs(img, after, i);
    }
  }

  lemma LikeInsert(img: Image, songs: seq<Entry>, clear: bool, at: nat, s: SongRec)
    requires at <= |img.songs| && Sound(img) && SoundSong(img, s) && Like(img, songs, clear)
    ensures |songs| == |img.songs|
    ensures
      var after := img.(songs := Insert(img.songs, at, s));
      Sound(after) && Like(after, Insert(songs, at, ReadSong(img, s)), clear)
  {
    hide Sound, SoundSong, ReadSong, Read, Bare;
    ReadSizes(img);
    var e, a := ReadSong(img, s), Read(img).songs;
    ReadInsertSong(img, at, s);
    BareInsert(a, songs, at, e);
    if !clear {
      var p: nat :| LongerAt(a, songs, p);
      assert LongerAt(Insert(a, at, e), Insert(songs, at, e), if p < at then p else p + 1);
    }
  }

  /** Storing a song through the pools: the table reads like the one with the song inserted, and clear
      exactly if it was clear and no list runs on into the new one. */
  lemma LikePutSong(
    img: Image, songs: seq<Entry>, clear: bool, e: Entry, at: nat)
    requires Sound(img) && Like(img, songs, clear) && at <= |img.songs|
    requires NulFree(e.name) && NulFree(e.pinyin) && e.info.mediaType != VIDEO
    requires e.clips.Some? && IsClipList(e.clips.value)
    requires |img.songNames| < 0x1_0000_0000 && |img.songPys| < 0x1_0000_0000 && |img.clips| < NO_CLIPS
    ensures |songs| == |img.songs|
    ensures
      var after := PutSong(img, e.info, e.singers, e.authors, e.name, e.pinyin, e.clips, at);
      && Sound(after) && Read(after).artists == Read(img).artists
      && Like(after, Insert(songs, at, e), clear && NotRunOn(img, e.clips.value)) && !Closed(after)
  {
    hide Sound, Read, NotRunOn, Insert, CString, ClipList, IsClipList, ClipReadable, Like, Closed;
    var list := e.clips.value;
    var grown := img.(
      songNames := img.songNames + (e.name + [0]), songPys := img.songPys + (e.pinyin + [0]),
      clips := img.clips + list);
    assert grown.clips[|img.clips|..] == list;
    LikeGrown(img, grown, songs, clear);
    GrownSound(img, grown);
    CStringAppend(img.songNames, e.name);
    CStringAppend(img.songPys, e.pinyin);
    ClipListAppend(img.clips, list);
    var record := Song(e.info, e.singers, e.authors, |img.songNames|, |img.songPys|, |img.clips|);
    assert ReadSong(grown, record) == e;
    LikeInsert(grown, songs, clear && NotRunOn(img, list), at, record);
    ReadInsertSong(grown, at, record);
    StoredListOpen(img, e.info, e.singers, e.authors, e.name, e.pinyin, list, at);
  }

  /** Overwriting a song's slots has nothing to do with lists. */
  lemma LikeSetSlots(img: Image, songs: seq<Entry>, clear: bool, j: nat, singers: Slots, authors: Slots)
    requires Sound(img) && j < |img.songs| && Like(img, songs, clear)
    ensures |songs| == |img.songs|
    ensures
      var after := img.(songs := img.songs[j := img.songs[j].(singers := singers, authors := authors)]);
      && Sound(after) && Read(after).artists == Read(img).artists
      && Like(after, songs[j := songs[j].(singers := singers, authors := authors)], clear)
      && (Closed(after) <==> Closed(img))
  {
    hide Sound, Read, CString, ClipList;
    ReadSizes(img);
    var after := img.(songs := img.songs[j := img.songs[j].(singers := singers, authors := authors)]);
    var a := Read(img).songs;
    ReadSetSlots(img, j, singers, authors);
    BareAt(a, songs, j);
    BareSet(a, songs, j, singers, authors);
    ClosedSame(img, after);
    if !clear {
      var p: nat :| LongerAt(a, songs, p);
      assert LongerAt(Read(after).songs, songs[j := songs[j].(singers := singers, authors := authors)], p);
    }
  }

  lemma BareSet(a: seq<Entry>, b: seq<Entry>, j: nat, singers: Slots, authors: Slots)
    requires Bare(a) == Bare(b) && j < |a|
    ensures |a| == |b|
    ensures Bare(a[j := a[j].(singers := singers, authors := authors)])
         == Bare(b[j := b[j].(singers := singers, authors := authors)])
  {
    BareSame(a, b);
    var c := a[j := a[j].(singers := singers, authors := authors)];
    var d := b[j := b[j].(singers := singers, authors := authors)];
    forall i | 0 <= i < |a|
      ensures NoClips(c[i]) == NoClips(d[i])
    {
      BareAt(a, b, i);
    }
  }

  /** Whether the lists are ended is a question of the offsets and the pool. */
  lemma ClosedSame(img: Image, after: Image)
    requires after.clips == img.clips && |after.songs| == |img.songs|
    requires forall i | 0 <= i < |img.songs| :: after.songs[i].clips == img.songs[i].clips
    ensures Closed(after) <==> Closed(img)
  {
    hide ClipList;
    forall i | 0 <= i < |img.songs|
      ensures EndedList(after, after.songs[i]) == EndedList(img, img.songs[i])
    {}
  }

  // ---- many

  /** A list that counts 128 clips or more does not end the one before it. */
  predicate Long(e: Entry) { e.clips.Some? && |e.clips.value| > 0 && High(e.clips.value[0]) }

  /** Lists stored one after the other run on from nothing: only the first may be a long one, and that only
      if the table it comes to is closed. */
  ghost predicate ListsFit(closed: bool, stored: seq<Entry>)
  {
    forall k | 0 <= k < |stored| && Long(stored[k]) :: k == 0 && closed
  }

  lemma ListsFitNext(closed: bool, stored: seq<Entry>, e: Entry)
    ensures ListsFit(closed, stored + [e])
       <==> ListsFit(closed, stored) && (!Long(e) || (stored == [] && closed))
  {
    hide Long;
    var all := stored + [e];
    assert all[|stored|] == e && forall k | 0 <= k < |stored| :: all[k] == stored[k];
  }

  // ---- what artists and deletions leave of the lists

  /** The same clip pool, and song by song the same list in it, under the same codes. */
  ghost predicate SameClips(a: Image, b: Image)
  {
    && a.clips == b.clips && |a.songs| == |b.songs|
    && forall j | 0 <= j < |a.songs| :: a.songs[j].clips == b.songs[j].clips && a.songs[j].info == b.songs[j].info
  }

  lemma SameClipsClosed(a: Image, b: Image)
    requires SameClips(a, b)
    ensures Closed(a) <==> Closed(b)
  {
    ClosedSame(a, b);
  }

  lemma SameClipsDeleteFirst(a: Image, b: Image, code5: U32, abc: U4)
    requires SameClips(a, b)
    ensures SameClips(a.(songs := DeleteFirst(a.songs, code5, abc)), b.(songs := DeleteFirst(b.songs, code5, abc)))
  {
    assert FirstByCode5(a.songs, code5, abc) == FirstByCode5(b.songs, code5, abc);
  }

  lemma {:induction false} SameClipsDelete(a: Image, b: Image, update: Image, marks: seq<bool>, n: nat)
    requires SameClips(a, b) && n <= |update.songs| == |marks|
    ensures SameClips(a.(songs := DeletePass(a.songs, update.songs, marks, n)),
                      b.(songs := DeletePass(b.songs, update.songs, marks, n)))
  {
    hide SameClips, DeleteFirst;
    if n == 0 {
      assert a.(songs := a.songs) == a && b.(songs := b.songs) == b;
    } else {
      SameClipsDelete(a, b, update, marks, n - 1);
      if marks[n - 1] {
        SameClipsDeleteFirst(
          a.(songs := DeletePass(a.songs, update.songs, marks, n - 1)),
          b.(songs := DeletePass(b.songs, update.songs, marks, n - 1)),
          update.songs[n - 1].info.code5, update.songs[n - 1].info.abc);
      }
    }
  }

  ghost function SameList(): Relation { (e: Entry, f: Entry) => e.info == f.info && e.clips == f.clips }

  lemma SameListsFit(closed: bool, a: seq<Entry>, b: seq<Entry>)
    requires Pairwise(a, b, SameList())
    ensures ListsFit(closed, a) <==> ListsFit(closed, b)
  {
    hide High;
    var rel := SameList();
    assert forall k | 0 <= k < |a| :: rel(a[k], b[k]) && Long(a[k]) == Long(b[k]);
  }

  /** Which songs are accepted, and with which lists, is a question of codes. */
  lemma SameAccepted(
    songs: seq<Entry>, updates: seq<Entry>, after: seq<Entry>, linked: seq<Entry>, dropped: seq<bool>, n: nat,
    closed: bool)
    requires n <= |updates| == |linked| == |dropped| && |songs| == |after|
    requires forall j | 0 <= j < |songs| :: songs[j].info == after[j].info
    requires Pairwise(updates, linked, SameList())
    ensures ListsFit(closed, Accepted(songs, updates, dropped, n))
       <==> ListsFit(closed, Accepted(after, linked, dropped, n))
  {
    hide ListsFit, Accepted, Pairwise;
    assert forall j | 0 <= j < |songs| :: songs[j].info.code6 == after[j].info.code6;
    assert Codes(songs) == Codes(after);
    AcceptedPairwise(songs, updates, after, linked, SameList(), dropped, n);
    SameListsFit(closed, Accepted(songs, updates, dropped, n), Accepted(after, linked, dropped, n));
  }
}
