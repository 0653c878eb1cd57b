/** What the strings of records take of the pools, one size for each record. */
module PoolRoom {
  import opened Catalogue

  function NameSizes(artists: seq<Artist>): (r: seq<nat>)
    ensures |r| == |artists|
  {
    seq(|artists|, i requires 0 <= i < |artists| => |artists[i].name| + 1)
  }

  function PinyinSizes(artists: seq<Artist>): (r: seq<nat>)
    ensures |r| == |artists|
  {
    seq(|artists|, i requires 0 <= i < |artists| => |artists[i].pinyin| + 1)
  }

  function SongNameSizes(songs: seq<Entry>): (r: seq<nat>)
    ensures |r| == |songs|
  {
    seq(|songs|, i requires 0 <= i < |songs| => |songs[i].name| + 1)
  }

  function SongPinyinSizes(songs: seq<Entry>): (r: seq<nat>)
    ensures |r| == |songs|
  {
    seq(|songs|, i requires 0 <= i < |songs| => |songs[i].pinyin| + 1)
  }

  function ClipBytes(u: Entry): nat { if u.clips.Some? then |u.clips.value| else 0 }

  function SongClipSizes(songs: seq<Entry>): (r: seq<nat>)
    ensures |r| == |songs|
  {
    seq(|songs|, i requires 0 <= i < |songs| => ClipBytes(songs[i]))
  }

  /** The first n sizes, all together. */
  function Sum(sizes: seq<nat>, n: nat): nat
    requires n <= |sizes|
  {
    if n == 0 then 0 else Sum(sizes, n - 1) + sizes[n - 1]
  }

  lemma NoSum(sizes: seq<nat>)
    ensures Sum(sizes, 0) == 0
  {}

  lemma SumNext(sizes: seq<nat>, i: nat)
    requires i < |sizes|
    ensures Sum(sizes, i + 1) == Sum(sizes, i) + sizes[i]
  {}

  lemma {:induction false} SumStep(sizes: seq<nat>, n: nat)
    requires n < |sizes|
    ensures Sum(sizes, n) + sizes[n] <= Sum(sizes, |sizes|)
    decreases |sizes| - n
  {
    if n < |sizes| - 1 {
      SumStep(sizes, n + 1);
    }
  }

  /** What is still to come from the i-th on. */
  function Left(sizes: seq<nat>, i: nat): int
    requires i <= |sizes|
  {
    Sum(sizes, |sizes|) - Sum(sizes, i)
  }

  lemma LeftStep(sizes: seq<nat>, i: nat)
    requires i < |sizes|
    ensures Left(sizes, i) == sizes[i] + Left(sizes, i + 1) && Left(sizes, i + 1) >= 0
  {
    SumNext(sizes, i);
    SumStep(sizes, i);
  }
}
