/** insertNewSongToDatabase replaces, in place and artist by artist, the list indices in the songs'
    slots by database row ids. */
module Relabel {
  import opened Bytes
  import opened Records

  /** Row ids as they are stored in a slot; None for an artist without the role. */
  type Labels = seq<Option<U16>>

  /** The row ids a loop over songs is run for, cut to 16 bits by the assignment. */
  function Cut(rows: seq<Option<U32>>): (labels: Labels)
    ensures |labels| == |rows|
  {
    seq(|rows|, i requires 0 <= i < |rows| => if rows[i].Some? then Some(Wrap16(rows[i].value)) else None)
  }

  /** One artist's turn at one slot list. */
  function RelabelOne(s: Slots, i: nat, row: U16): Slots
  {
    var n := Live(s);
    seq(MAX_ARTIST_PER_SONG, k requires 0 <= k < MAX_ARTIST_PER_SONG => if k < n && s[k] == i then row else s[k])
  }

  /** The first i artists' turns, one after the other. */
  function Relabelled(s: Slots, labels: Labels, i: nat): Slots
    requires i <= |labels|
  {
    if i == 0 then s
    else
      var before := Relabelled(s, labels, i - 1);
      if labels[i - 1].Some? then RelabelOne(before, i - 1, labels[i - 1].value) else before
  }

  /** What is meant: every index replaced once, all at the same time. */
  function Substituted(s: Slots, labels: Labels): Slots
  {
    var n := Live(s);
    seq(MAX_ARTIST_PER_SONG, k requires 0 <= k < MAX_ARTIST_PER_SONG =>
      if k < n && s[k] < |labels| && labels[s[k]].Some? then labels[s[k]].value else s[k])
  }

  /** What becomes of one value over the first i turns. */
  function Chase(x: U16, labels: Labels, i: nat): U16
    requires i <= |labels|
  {
    if i == 0 then x
    else
      var v := Chase(x, labels, i - 1);
      if v == i - 1 && v != NO_ARTIST && labels[i - 1].Some? then labels[i - 1].value else v
  }

  /** No row id reads as the mark that ends a list. */
  ghost predicate NoEndMark(labels: Labels)
  {
    forall i | 0 <= i < |labels| && labels[i].Some? :: labels[i].value != NO_ARTIST
  }

  /** The value left where artist a stood is nobody's whose turn is still to come. */
  predicate Safe(a: U16, labels: Labels)
  {
    a < |labels| && labels[a].Some? && a < labels[a].value < |labels| ==> labels[labels[a].value].None?
  }

  ghost predicate DistinctLabels(labels: Labels)
  {
    forall i, j | 0 <= i < j < |labels| && labels[i].Some? && labels[j].Some? :: labels[i].value != labels[j].value
  }

  function Meant(a: U16, labels: Labels): U16
  {
    if a < |labels| && labels[a].Some? then labels[a].value else a
  }

  /** A value stays as it is until its own turn, and for good once that is over; so does the end mark. */
  lemma {:induction false} ChaseKeeps(x: U16, labels: Labels, i: nat, j: nat)
    requires i <= j <= |labels|
    requires Chase(x, labels, i) < i || j <= Chase(x, labels, i) || Chase(x, labels, i) == NO_ARTIST
    ensures Chase(x, labels, j) == Chase(x, labels, i)
  {
    if i < j { ChaseKeeps(x, labels, i, j - 1); }
  }

  /** Where row ids lead from v on, as long as each is the index of a later artist with the role, among the
      first lim. */
  function End(v: U16, labels: Labels, lim: nat): U16
    requires lim <= |labels|
    decreases lim - v
  {
    if v < lim && v != NO_ARTIST && labels[v].Some? then
      if labels[v].value > v then End(labels[v].value, labels, lim) else labels[v].value
    else v
  }

  lemma {:induction false} ChaseEnds(x: U16, labels: Labels, i: nat, lim: nat)
    requires i <= lim <= |labels| && i <= Chase(x, labels, i)
    ensures Chase(x, labels, lim) == End(Chase(x, labels, i), labels, lim)
    decreases lim - Chase(x, labels, i)
  {
    var v := Chase(x, labels, i);
    if v >= lim || v == NO_ARTIST {
      ChaseKeeps(x, labels, i, lim);
    } else {
      ChaseKeeps(x, labels, i, v);
      if labels[v].Some? && labels[v].value > v {
        ChaseEnds(x, labels, v + 1, lim);
      } else {
        ChaseKeeps(x, labels, v + 1, lim);
      }
    }
  }

  /** After how many turns, of lim, a slot that began with v has become the end mark; lim if it does not. */
  function CutAfter(v: U16, labels: Labels, lim: nat): (c: nat)
    requires lim <= |labels|
    ensures c == lim || v < c < lim
    decreases lim - v
  {
    if v < lim && v != NO_ARTIST && labels[v].Some? then
      if labels[v].value == NO_ARTIST then v + 1
      else if labels[v].value > v then CutAfter(labels[v].value, labels, lim)
      else lim
    else lim
  }

  /** How many turns slot k takes part in: no more once a slot before it has become the end mark. */
  function Turns(s: Slots, labels: Labels, k: nat): (t: nat)
    requires k <= MAX_ARTIST_PER_SONG
    ensures t <= |labels|
  {
    if k == 0 then |labels| else CutAfter(s[k - 1], labels, Turns(s, labels, k - 1))
  }

  function Min(a: nat, b: nat): nat { if a < b then a else b }

  /** A slot is the end mark from its cut on, and not before. */
  lemma {:induction false} CutChase(x: U16, labels: Labels, u: nat, lim: nat, t: nat)
    requires u <= lim <= |labels| && u <= t <= |labels|
    requires u <= Chase(x, labels, u) < NO_ARTIST
    ensures
      var c := CutAfter(Chase(x, labels, u), labels, lim);
      && (t < c ==> Chase(x, labels, t) != NO_ARTIST)
      && (c < lim && c <= t ==> Chase(x, labels, t) == NO_ARTIST)
    decreases lim - Chase(x, labels, u)
  {
    var v := Chase(x, labels, u);
    if t <= v {
      ChaseKeeps(x, labels, u, t);
    }
    if v < lim {
      ChaseKeeps(x, labels, u, v);
      if labels[v].Some? && v < labels[v].value < NO_ARTIST {
        if t > v { CutChase(x, labels, v + 1, lim, t); }
      } else if t > v {
        ChaseKeeps(x, labels, v + 1, t);
      }
    }
  }

  lemma {:induction false} TurnsFall(s: Slots, labels: Labels, j: nat, k: nat)
    requires j <= k <= MAX_ARTIST_PER_SONG
    ensures Turns(s, labels, k) <= Turns(s, labels, j)
  {
    if j < k { TurnsFall(s, labels, j, k - 1); }
  }

  /** After i turns, slot j holds the chase of its value over the turns it took part in. */
  ghost predicate ChasedBy(s: Slots, labels: Labels, i: nat, t: Slots)
    requires i <= |labels|
  {
    forall k | 0 <= k < MAX_ARTIST_PER_SONG ::
      t[k] == if k < Live(s) then Chase(s[k], labels, Min(i, Turns(s, labels, k))) else s[k]
  }

  lemma ChaseNone(x: U16, labels: Labels)
    ensures Chase(x, labels, 0) == x
  {}

  /** While slot k takes part, no slot before it is the end mark; afterwards one is. */
  lemma {:induction false} TakesPartIff(s: Slots, labels: Labels, i: nat, t: Slots, k: nat)
    requires i < |labels| && k <= Live(s) && ChasedBy(s, labels, i, t)
    ensures i < Turns(s, labels, k) <==> forall j | 0 <= j < k :: t[j] != NO_ARTIST
  {
    hide Chase, CutAfter;
    if k > 0 {
      TakesPartIff(s, labels, i, t, k - 1);
      ChaseNone(s[k - 1], labels);
      var lim := Turns(s, labels, k - 1);
      CutChase(s[k - 1], labels, 0, lim, Min(i, lim));
    }
  }

  lemma ChasedNext(s: Slots, labels: Labels, i: nat, t: Slots)
    requires i < |labels| && ChasedBy(s, labels, i, t)
    ensures ChasedBy(s, labels, i + 1, if labels[i].Some? then RelabelOne(t, i, labels[i].value) else t)
  {
    hide Turns, Live;
    var next := if labels[i].Some? then RelabelOne(t, i, labels[i].value) else t;
    forall k | 0 <= k < Live(s)
      ensures next[k] == Chase(s[k], labels, Min(i + 1, Turns(s, labels, k)))
    {
      TakesPartIff(s, labels, i, t, k);
      if i < Turns(s, labels, k) {
        assert k <= Live(t);
        assert k < Live(t) || t[k] == NO_ARTIST;
      } else {
        var j :| 0 <= j < k && t[j] == NO_ARTIST;
        assert Live(t) <= j;
      }
    }
    forall k | Live(s) <= k < MAX_ARTIST_PER_SONG
      ensures next[k] == s[k]
    {
      assert t[Live(s)] == NO_ARTIST;
      assert Live(t) <= Live(s);
    }
  }

  lemma {:induction false} RelabelledIsChase(s: Slots, labels: Labels, i: nat)
    requires i <= |labels|
    ensures ChasedBy(s, labels, i, Relabelled(s, labels, i))
  {
    hide Turns, RelabelOne;
    if i > 0 {
      RelabelledIsChase(s, labels, i - 1);
      ChasedNext(s, labels, i - 1, Relabelled(s, labels, i - 1));
    }
  }

  /** a's row id is nobody's whose turn is still to come, or the row ids lead from it back to it. */
  predicate Settled(a: U16, labels: Labels)
  {
    a < |labels| && labels[a].Some? && a < labels[a].value ==> End(labels[a].value, labels, |labels|) == labels[a].value
  }

  lemma ChaseIff(a: U16, labels: Labels)
    requires a != NO_ARTIST
    ensures Chase(a, labels, |labels|) == Meant(a, labels) <==> Settled(a, labels)
  {
    ChaseEnds(a, labels, 0, |labels|);
  }

  lemma SafeSettles(a: U16, labels: Labels)
    requires Safe(a, labels)
    ensures Settled(a, labels)
  {}

  /** The way up from a labelled artist ends at the row id of one not before it. */
  lemma {:induction false} EndIsLabel(v: U16, labels: Labels) returns (i: nat)
    requires NoEndMark(labels) && v < |labels| && v != NO_ARTIST && labels[v].Some?
    ensures v <= i < |labels| && labels[i].Some? && labels[i].value == End(v, labels, |labels|)
    decreases |labels| - v
  {
    i := v;
    if v < labels[v].value < |labels| && labels[labels[v].value].Some? { i := EndIsLabel(labels[v].value, labels); }
  }

  /** Row ids that differ never lead back. */
  lemma SettledIsSafe(a: U16, labels: Labels)
    requires NoEndMark(labels) && DistinctLabels(labels) && Settled(a, labels)
    ensures Safe(a, labels)
  {
    if !Safe(a, labels) {
      var i := EndIsLabel(labels[a].value, labels);
    }
  }

  ghost predicate AllSafe(s: Slots, labels: Labels) { forall k | 0 <= k < Live(s) :: Safe(s[k], labels) }

  ghost predicate AllSettled(s: Slots, labels: Labels) { forall k | 0 <= k < Live(s) :: Settled(s[k], labels) }

  /** The slot ends up with its own artist's row id: followed over the turns it takes part in, the row ids
      lead there and no further. */
  predicate EndsRight(s: Slots, labels: Labels, k: nat)
    requires k < MAX_ARTIST_PER_SONG
  {
    End(s[k], labels, Turns(s, labels, k)) == Meant(s[k], labels)
  }

  /** In-place relabelling is right exactly when that is so for every slot in use. Row ids may repeat, as those
      of namesakes do, and one that reads as the end mark cuts the slots behind it off. */
  lemma RelabelsIff(s: Slots, labels: Labels)
    ensures Relabelled(s, labels, |labels|) == Substituted(s, labels)
       <==> forall k | 0 <= k < Live(s) :: EndsRight(s, labels, k)
  {
    hide Chase, Relabelled, Turns, End;
    var t := Relabelled(s, labels, |labels|);
    RelabelledIsChase(s, labels, |labels|);
    forall k | 0 <= k < Live(s)
      ensures t[k] == Substituted(s, labels)[k] <==> EndsRight(s, labels, k)
    {
      assert Min(|labels|, Turns(s, labels, k)) == Turns(s, labels, k);
      ChaseFromStart(s[k], labels, Turns(s, labels, k));
      assert Substituted(s, labels)[k] == Meant(s[k], labels);
    }
    if forall k | 0 <= k < Live(s) :: EndsRight(s, labels, k) {
      assert forall k | 0 <= k < MAX_ARTIST_PER_SONG :: t[k] == Substituted(s, labels)[k];
    }
  }

  lemma ChaseFromStart(x: U16, labels: Labels, lim: nat)
    requires lim <= |labels|
    ensures Chase(x, labels, lim) == End(x, labels, lim)
  {
    ChaseEnds(x, labels, 0, lim);
  }

  lemma {:induction false} NeverCut(v: U16, labels: Labels, lim: nat)
    requires NoEndMark(labels) && lim <= |labels|
    ensures CutAfter(v, labels, lim) == lim
    decreases lim - v
  {
    if v < lim && labels[v].Some? && labels[v].value > v { NeverCut(labels[v].value, labels, lim); }
  }

  lemma {:induction false} AllTurns(s: Slots, labels: Labels, k: nat)
    requires NoEndMark(labels) && k <= MAX_ARTIST_PER_SONG
    ensures Turns(s, labels, k) == |labels|
  {
    if k > 0 {
      AllTurns(s, labels, k - 1);
      NeverCut(s[k - 1], labels, |labels|);
    }
  }

  /** If no row id reads as the end mark: exactly when no used artist's row id leads on to another one. */
  lemma UncutRelabelsIff(s: Slots, labels: Labels)
    requires NoEndMark(labels)
    ensures Relabelled(s, labels, |labels|) == Substituted(s, labels) <==> AllSettled(s, labels)
  {
    hide Relabelled, Turns, Substituted;
    RelabelsIff(s, labels);
    forall k | 0 <= k < Live(s)
      ensures EndsRight(s, labels, k) <==> Settled(s[k], labels)
    {
      AllTurns(s, labels, k);
      ChaseIff(s[k], labels);
      ChaseFromStart(s[k], labels, |labels|);
    }
  }

  /** Whatever the row ids, it is right when no used artist's row id is the index of a later artist. */
  lemma SafeRelabels(s: Slots, labels: Labels)
    requires NoEndMark(labels) && AllSafe(s, labels)
    ensures Relabelled(s, labels, |labels|) == Substituted(s, labels)
  {
    UncutRelabelsIff(s, labels);
    forall k | 0 <= k < Live(s)
      ensures Settled(s[k], labels)
    {
      SafeSettles(s[k], labels);
    }
  }

  /** If different artists have different row ids, it is right only then. */
  lemma DistinctRelabelsIff(s: Slots, labels: Labels)
    requires NoEndMark(labels) && DistinctLabels(labels)
    ensures Relabelled(s, labels, |labels|) == Substituted(s, labels) <==> AllSafe(s, labels)
  {
    hide Settled, Safe;
    UncutRelabelsIff(s, labels);
    forall k | 0 <= k < Live(s)
      ensures Settled(s[k], labels) <==> Safe(s[k], labels)
    {
      if Settled(s[k], labels) { SettledIsSafe(s[k], labels); }
      if Safe(s[k], labels) { SafeSettles(s[k], labels); }
    }
  }

  /** Row id 1 for the first artist, 7 for the second: the song of the first ends up with 7. */
  lemma RelabelCanFail()
    ensures Relabelled([0, NO_ARTIST, NO_ARTIST, NO_ARTIST], [Some(1), Some(7)], 2)[0] == 7
  {
    var s, labels: Labels := [0, NO_ARTIST, NO_ARTIST, NO_ARTIST], [Some(1), Some(7)];
    assert Relabelled(s, labels, 0) == s;
    assert Relabelled(s, labels, 1)[0] == 1;
    assert Live(Relabelled(s, labels, 1)) == 1;
  }

  /** The slot loop: it stops at the first end mark, whoever put it there. */
  method RelabelSlots(s: Slots, i: nat, rowartistid: U32) returns (t: Slots)
    ensures t == RelabelOne(s, i, Wrap16(rowartistid))
  {
    t := s;
    ghost var want := RelabelOne(s, i, Wrap16(rowartistid));
    for k := 0 to MAX_ARTIST_PER_SONG
      invariant k <= Live(s)
      invariant forall l | 0 <= l < k :: t[l] == want[l]
      invariant forall l | k <= l < MAX_ARTIST_PER_SONG :: t[l] == s[l]
    {
      if t[k] == NO_ARTIST {
        assert forall l | k <= l < MAX_ARTIST_PER_SONG :: t[l] == want[l];
        return;
      }
      if t[k] == i {
        t := t[k := Wrap16(rowartistid)];
      }
    }
  }

  /** The loops of insertNewSongToDatabase for one role; rows holds the row ids found or made. */
  method RelabelSongs(songs: array<Slots>, rows: seq<Option<U32>>)
    modifies songs
    ensures forall z | 0 <= z < songs.Length :: songs[z] == Relabelled(old(songs[z]), Cut(rows), |rows|)
  {
    hide RelabelOne;
    for i := 0 to |rows|
      invariant forall z | 0 <= z < songs.Length :: songs[z] == Relabelled(old(songs[z]), Cut(rows), i)
    {
      if rows[i].Some? {
        for z := 0 to songs.Length
          invariant forall y | 0 <= y < z :: songs[y] == Relabelled(old(songs[y]), Cut(rows), i + 1)
          invariant forall y | z <= y < songs.Length :: songs[y] == Relabelled(old(songs[y]), Cut(rows), i)
        {
          songs[z] := RelabelSlots(songs[z], i, rows[i].value);
        }
      }
    }
  }
}
