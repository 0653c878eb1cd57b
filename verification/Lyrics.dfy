/** The lyric file: records appended by do_insert_lyric, parsed into a table kept sorted by song
    id, and looked up by id and type. Record: 01, length, type, id in three bytes, text, 00. */
module Lyrics {
  import opened Bytes
  import opened Records
  import Catalogue

  type U24 = x: nat | x < 0x100_0000

  datatype Lyric = Lyric(abc: Byte, id: U24, text: Str)

  const HEADER: nat := 6
  const BUFFER: nat := 512

  // ---- writing

  /** A song of the request; no text, no record. */
  datatype Source = Source(abc: U4, code5: U32, text: Option<Str>)

  function Print(abc: U4, code5: U32, text: Str): Str
  {
    [1, (|text| + 5) % 0x100, abc, code5 / 0x1_0000 % 0x100, code5 / 0x100 % 0x100, code5 % 0x100] + text + [0]
  }

  /** The record byte by byte: its text and everything else in seven bytes more, the low 24 bits of the id highest
      byte first, and a length that counts the text, type, id and NUL in eight bits. */
  lemma PrintIs(abc: U4, code5: U32, text: Str)
    ensures
      var r := Print(abc, code5, text);
      && |r| == |text| + 7 && r[0] == 1 && r[2] == abc && r[|r| - 1] == 0 && Sub(r, 6, |text|) == text
      && r[1] == (3 + |text| + 1 + 1) % 0x100
      && 0x1_0000 * (r[3] as int) + 0x100 * (r[4] as int) + r[5] == code5 % 0x100_0000
  {
    ThreeBytes(code5);
  }

  function PrintOne(song: Source): Str
  {
    if song.text.Some? then Print(song.abc, song.code5, song.text.value) else []
  }

  function PrintAll(songs: seq<Source>, n: nat): Str
    requires n <= |songs|
  {
    if n == 0 then [] else PrintAll(songs, n - 1) + PrintOne(songs[n - 1])
  }

  /** What the record says: ids keep their low 24 bits. */
  function ToldOne(song: Source): seq<Lyric>
  {
    if song.text.Some? then [Lyric(song.abc, song.code5 % 0x100_0000, song.text.value)] else []
  }

  function Told(songs: seq<Source>, n: nat): seq<Lyric>
    requires n <= |songs|
  {
    if n == 0 then [] else Told(songs, n - 1) + ToldOne(songs[n - 1])
  }

  /** The text of a record fits the buffer it is put together in. */
  ghost predicate Printable(text: Str) { NulFree(text) && |text| + HEADER + 1 <= BUFFER }

  /** The body of do_insert_lyric's loop: the record put together in the buffer. */
  method FillBuffer(pTempBuf: array<Byte>, song: Source) returns (pos: nat)
    requires pTempBuf.Length == BUFFER && song.text.Some? && Printable(song.text.value)
    modifies pTempBuf
    ensures pos <= BUFFER && pTempBuf[..pos] == Print(song.abc, song.code5, song.text.value)
  {
    var text := song.text.value;
    var lyrLength := |text|;
    pTempBuf[0], pTempBuf[1], pTempBuf[2] := 1, (lyrLength + 3 + 1 + 1) % 0x100, song.abc;
    pTempBuf[3], pTempBuf[4], pTempBuf[5] :=
      song.code5 / 0x1_0000 % 0x100, song.code5 / 0x100 % 0x100, song.code5 % 0x100;
    forall k | 0 <= k < lyrLength {
      pTempBuf[6 + k] := text[k];
    }
    pTempBuf[6 + lyrLength] := 0;
    pos := lyrLength + 7;
    ghost var record := Print(song.abc, song.code5, text);
    forall k | 0 <= k < pos
      ensures pTempBuf[k] == record[k]
    {}
  }

  /** do_insert_lyric: the same records to the ends of both files. */
  method DoInsertLyric(
    main: Str, sub: Str, songs: seq<Source>) returns (mainAfter: Str, subAfter: Str, insertStatus: nat)
    requires forall i | 0 <= i < |songs| && songs[i].text.Some? :: Printable(songs[i].text.value)
    ensures mainAfter == main + PrintAll(songs, |songs|) && subAfter == sub + PrintAll(songs, |songs|)
    ensures insertStatus == |Told(songs, |songs|)|
  {
    hide Print, Printable;
    var pTempBuf := new Byte[BUFFER](_ => 0);
    mainAfter, subAfter, insertStatus := main, sub, 0;
    for i := 0 to |songs|
      invariant mainAfter == main + PrintAll(songs, i) && subAfter == sub + PrintAll(songs, i)
      invariant insertStatus == |Told(songs, i)|
    {
      if songs[i].text.Some? {
        var pos := FillBuffer(pTempBuf, songs[i]);
        assert main + (PrintAll(songs, i) + pTempBuf[..pos]) == mainAfter + pTempBuf[..pos];
        assert sub + (PrintAll(songs, i) + pTempBuf[..pos]) == subAfter + pTempBuf[..pos];
        mainAfter := mainAfter + pTempBuf[..pos];
        subAfter := subAfter + pTempBuf[..pos];
        insertStatus := insertStatus + 1;
      }
    }
  }

  // ---- parsing

  /** Bytes of text the record at pos says it has; the length byte loses 4 in 8 bits. */
  function TextRoom(data: Str, pos: nat): nat
    requires pos + HEADER <= |data|
  {
    var length: nat := data[pos + 1];
    (length + 0x100 - 4) % 0x100
  }

  /** memccpy up to the first 01 into zeroed memory, read as a C string. */
  function TextAt(data: Str, pos: nat, room: nat): Str
    requires pos + room <= |data|
    decreases room
  {
    if room == 0 || data[pos] == 0 then []
    else if data[pos] == 1 then [1]
    else [data[pos]] + TextAt(data, pos + 1, room - 1)
  }

  /** That is: the bytes up to the first 01, which is taken along, or the first NUL, which is not. */
  lemma {:induction false} TextAtStops(data: Str, pos: nat, room: nat)
    requires pos + room <= |data|
    ensures
      var t := TextAt(data, pos, room);
      && |t| <= room && At(data, pos, t) && NulFree(t)
      && (forall k | 0 <= k < |t| - 1 :: t[k] != 1)
      && (|t| == room || data[pos + |t|] == 0 || (|t| > 0 && t[|t| - 1] == 1))
    decreases room
  {
    if room > 0 && data[pos] != 0 && data[pos] != 1 {
      TextAtStops(data, pos + 1, room - 1);
      var t, rest := TextAt(data, pos, room), TextAt(data, pos + 1, room - 1);
      forall i | pos <= i < pos + |t|
        ensures data[i] == t[i - pos]
      {
        if i > pos { assert data[i] == rest[i - (pos + 1)]; }
      }
    }
  }

  function IdAt(data: Str, pos: nat): U24
    requires pos + HEADER <= |data|
  {
    var high: nat, middle: nat := data[pos + 3], data[pos + 4];
    0x1_0000 * high + 0x100 * middle + data[pos + 5]
  }

  predicate WholeAt(data: Str, pos: nat)
  {
    pos + HEADER <= |data| && pos + HEADER + TextRoom(data, pos) <= |data|
  }

  /** Every record that parsing reaches from pos on ends inside the file. */
  predicate Whole(data: Str, pos: nat)
    decreases |data| - pos
  {
    pos >= |data| || data[pos] != 1 || (WholeAt(data, pos) && Whole(data, pos + HEADER + TextRoom(data, pos)))
  }

  /** The records from pos on, in file order; parsing stops at a byte that is no record's first. */
  function Parsed(data: Str, pos: nat): seq<Lyric>
    requires Whole(data, pos)
    decreases |data| - pos
  {
    if pos >= |data| || data[pos] != 1 then []
    else
      var room := TextRoom(data, pos);
      [Lyric(data[pos + 2], IdAt(data, pos), TextAt(data, pos + HEADER, room))] + Parsed(data, pos + HEADER + room)
  }

  // ---- what is written is parsed

  /** A text that comes back: the length fits, and no 01 stands before its last byte. */
  predicate Survives(text: Str)
  {
    |text| <= 254 && forall i | 0 <= i < |text| - 1 :: text[i] != 1
  }

  lemma {:induction false} TextAtIs(data: Str, pos: nat, text: Str, room: nat)
    requires At(data, pos, text) && NulFree(text) && |text| < room && pos + room <= |data| && data[pos + |text|] == 0
    requires forall i | 0 <= i < |text| - 1 :: text[i] != 1
    ensures TextAt(data, pos, room) == text
    decreases |text|
  {
    if |text| > 0 {
      assert data[pos] == text[pos - pos];
      assert text == [text[0]] + text[1..];
      if text[0] != 1 {
        forall i | pos + 1 <= i < pos + |text|
          ensures data[i] == text[1..][i - (pos + 1)]
        {
          assert data[i] == text[i - pos];
        }
        TextAtIs(data, pos + 1, text[1..], room - 1);
      }
    }
  }

  lemma {:induction false} TextAtShort(data: Str, pos: nat, room: nat)
    requires pos + room <= |data|
    ensures |TextAt(data, pos, room)| <= room
    ensures forall i | 0 <= i < |TextAt(data, pos, room)| - 1 :: TextAt(data, pos, room)[i] != 1
    decreases room
  {
    if room > 0 && data[pos] != 0 && data[pos] != 1 {
      TextAtShort(data, pos + 1, room - 1);
    }
  }

  lemma PrintedRoom(data: Str, pos: nat, abc: U4, code5: U32, text: Str)
    requires At(data, pos, Print(abc, code5, text))
    ensures WholeAt(data, pos) && TextRoom(data, pos) == (|text| + 1) % 0x100
    ensures data[pos] == 1 && data[pos + 2] == abc && IdAt(data, pos) == code5 % 0x100_0000
    ensures pos + HEADER + |text| + 1 <= |data| && At(data, pos + HEADER, text + [0])
  {
    hide Print;
    var record := Print(abc, code5, text);
    PrintIs(abc, code5, text);
    assert forall i | pos <= i < pos + |record| :: data[i] == record[i - pos];
    assert data[pos + 1] == record[1] && data[pos + 2] == record[2] && data[pos + 3] == record[3]
        && data[pos + 4] == record[4] && data[pos + 5] == record[5] && data[pos] == record[0];
    RoomBack(|text|);
    forall i | pos + HEADER <= i < pos + HEADER + |text| + 1
      ensures data[i] == (text + [0])[i - (pos + HEADER)]
    {
      assert data[i] == record[i - pos];
      if i - pos < |record| - 1 { assert Sub(record, 6, |text|)[i - pos - 6] == record[i - pos]; }
    }
  }

  lemma RoomBack(n: nat)
    ensures ((n + 5) % 0x100 + 0x100 - 4) % 0x100 == (n + 1) % 0x100
  {}

  lemma ThreeBytes(code5: U32)
    ensures 0x1_0000 * (code5 / 0x1_0000 % 0x100) + 0x100 * (code5 / 0x100 % 0x100) + code5 % 0x100
      == code5 % 0x100_0000
  {
    assert code5 / 0x1_0000 == code5 / 0x100 / 0x100;
  }

  /** A record of the file gives its text back exactly when the text survives. */
  lemma TextBackIff(data: Str, pos: nat, abc: U4, code5: U32, text: Str)
    requires Printable(text) && At(data, pos, Print(abc, code5, text))
    ensures WholeAt(data, pos)
    ensures TextAt(data, pos + HEADER, TextRoom(data, pos)) == text <==> Survives(text)
  {
    PrintedRoom(data, pos, abc, code5, text);
    var from, room := pos + HEADER, TextRoom(data, pos);
    assert data[from + |text|] == (text + [0])[from + |text| - from];
    TextAtShort(data, from, room);
    if Survives(text) {
      forall i | from <= i < from + |text|
        ensures data[i] == text[i - from]
      {
        assert data[i] == (text + [0])[i - from];
      }
      TextAtIs(data, from, text, room);
    }
  }

  lemma SurvivesShort(text: Str)
    requires Survives(text)
    ensures (|text| + 1) % 0x100 == |text| + 1
  {}

  lemma RecordParsed(data: Str, pos: nat)
    requires WholeAt(data, pos) && data[pos] == 1
    ensures
      var next := pos + HEADER + TextRoom(data, pos);
      && (Whole(data, pos) <==> Whole(data, next))
      && (Whole(data, pos) ==>
          var first := Lyric(data[pos + 2], IdAt(data, pos), TextAt(data, pos + HEADER, TextRoom(data, pos)));
          Parsed(data, pos) == [first] + Parsed(data, next))
  {
    hide TextAt, IdAt, TextRoom;
  }

  lemma ParsedEnd(data: Str)
    ensures Whole(data, |data|) && Parsed(data, |data|) == []
  {}

  /** One record alone in a file: parsing gives it back, and nothing else, exactly when the text survives. */
  lemma PrintedParsesIff(abc: U4, code5: U32, text: Str)
    requires Printable(text)
    ensures
      var file := Print(abc, code5, text);
      (Whole(file, 0) && Parsed(file, 0) == [Lyric(abc, code5 % 0x100_0000, text)]) <==> Survives(text)
  {
    hide TextAt, IdAt, Whole, Parsed, WholeAt, TextRoom, Survives, Printable;
    var file := Print(abc, code5, text);
    PrintedRoom(file, 0, abc, code5, text);
    TextBackIff(file, 0, abc, code5, text);
    RecordParsed(file, 0);
    if Survives(text) {
      SurvivesShort(text);
      assert HEADER + TextRoom(file, 0) == |file|;
      ParsedEnd(file);
    } else if Whole(file, 0) {
      assert Parsed(file, 0)[0].text == TextAt(file, HEADER, TextRoom(file, 0));
    }
  }

  lemma {:induction false} PrintPrefix(songs: seq<Source>, i: nat, n: nat)
    requires i <= n <= |songs|
    ensures PrintAll(songs, i) <= PrintAll(songs, n) && Told(songs, i) <= Told(songs, n)
  {
    hide PrintOne, ToldOne;
    if i < n {
      PrintPrefix(songs, i, n - 1);
    }
  }

  ghost predicate AllSurvive(songs: seq<Source>)
  {
    forall i | 0 <= i < |songs| && songs[i].text.Some? :: NulFree(songs[i].text.value) && Survives(songs[i].text.value)
  }

  lemma PrintedAt(songs: seq<Source>, i: nat)
    requires i < |songs|
    ensures At(PrintAll(songs, |songs|), |PrintAll(songs, i)|, PrintOne(songs[i]))
    ensures |PrintAll(songs, i + 1)| == |PrintAll(songs, i)| + |PrintOne(songs[i])| <= |PrintAll(songs, |songs|)|
    ensures |Told(songs, i)| + |ToldOne(songs[i])| == |Told(songs, i + 1)| <= |Told(songs, |songs|)|
    ensures Told(songs, |songs|)[|Told(songs, i)|..] == ToldOne(songs[i]) + Told(songs, |songs|)[|Told(songs, i + 1)|..]
  {
    hide PrintOne, ToldOne;
    PrintPrefix(songs, i + 1, |songs|);
    var data, part := PrintAll(songs, |songs|), PrintAll(songs, i + 1);
    forall k | |PrintAll(songs, i)| <= k < |PrintAll(songs, i)| + |PrintOne(songs[i])|
      ensures data[k] == PrintOne(songs[i])[k - |PrintAll(songs, i)|]
    {
      assert data[k] == part[k];
    }
    var told, some := Told(songs, |songs|), Told(songs, i + 1);
    assert told == some + told[|some|..] && some == Told(songs, i) + ToldOne(songs[i]);
  }

  /** Parsing what was appended gives every record back, in order. */
  lemma {:induction false} ParsedFrom(songs: seq<Source>, i: nat)
    requires i <= |songs| && AllSurvive(songs)
    ensures |PrintAll(songs, i)| <= |PrintAll(songs, |songs|)| && |Told(songs, i)| <= |Told(songs, |songs|)|
    ensures
      var data := PrintAll(songs, |songs|);
      && Whole(data, |PrintAll(songs, i)|)
      && Parsed(data, |PrintAll(songs, i)|) == Told(songs, |songs|)[|Told(songs, i)|..]
    decreases |songs| - i
  {
    hide PrintAll, Told, Print, TextAt, IdAt;
    if i < |songs| {
      ParsedFrom(songs, i + 1);
      PrintedAt(songs, i);
      if songs[i].text.Some? {
        ParsedOne(PrintAll(songs, |songs|), |PrintAll(songs, i)|, songs[i]);
      }
    }
  }

  lemma SurvivesPrintable(text: Str)
    requires NulFree(text) && Survives(text)
    ensures Printable(text)
  {}

  lemma PrintSize(abc: U4, code5: U32, text: Str)
    ensures |Print(abc, code5, text)| == HEADER + |text| + 1
  {}

  lemma ParsedOne(data: Str, pos: nat, song: Source)
    requires song.text.Some? && NulFree(song.text.value) && Survives(song.text.value)
    requires At(data, pos, PrintOne(song)) && Whole(data, pos + |PrintOne(song)|)
    ensures Whole(data, pos) && Parsed(data, pos) == ToldOne(song) + Parsed(data, pos + |PrintOne(song)|)
  {
    hide TextAt, IdAt, Whole, Parsed, WholeAt, TextRoom, Print, Survives;
    PrintedRoom(data, pos, song.abc, song.code5, song.text.value);
    SurvivesPrintable(song.text.value);
    TextBackIff(data, pos, song.abc, song.code5, song.text.value);
    SurvivesShort(song.text.value);
    PrintSize(song.abc, song.code5, song.text.value);
    RecordParsed(data, pos);
  }

  lemma PrintAllParses(songs: seq<Source>)
    requires AllSurvive(songs)
    ensures Whole(PrintAll(songs, |songs|), 0) && Parsed(PrintAll(songs, |songs|), 0) == Told(songs, |songs|)
  {
    ParsedFrom(songs, 0);
  }

  // ---- the table

  ghost predicate SortedById(info: seq<Lyric>)
  {
    forall i, j | 0 <= i < j < |info| :: info[i].id <= info[j].id
  }

  /** First position whose id is larger, or the length of the table. */
  function UpperBound(info: seq<Lyric>, id: U32, start: nat): (at: nat)
    requires start <= |info|
    ensures start <= at <= |info|
    ensures forall i | start <= i < at :: info[i].id <= id
    ensures at < |info| ==> info[at].id > id
    decreases |info| - start
  {
    if start == |info| || info[start].id > id then start else UpperBound(info, id, start + 1)
  }

  function Put(info: seq<Lyric>, r: Lyric): seq<Lyric>
  {
    Catalogue.Insert(info, UpperBound(info, r.id, 0), r)
  }

  /** The records put into the table one after the other. */
  function Table(records: seq<Lyric>, n: nat): seq<Lyric>
    requires n <= |records|
  {
    if n == 0 then [] else Put(Table(records, n - 1), records[n - 1])
  }

  /** The records of one id, in order. */
  function OfId(records: seq<Lyric>, id: U32): seq<Lyric>
  {
    if |records| == 0 then []
    else if records[0].id == id then [records[0]] + OfId(records[1..], id)
    else OfId(records[1..], id)
  }

  lemma {:induction false} OfIdConcat(a: seq<Lyric>, b: seq<Lyric>, id: U32)
    ensures OfId(a + b, id) == OfId(a, id) + OfId(b, id)
  {
    if |a| == 0 {
      assert a + b == b;
    } else {
      assert (a + b)[1..] == a[1..] + b;
      OfIdConcat(a[1..], b, id);
    }
  }

  lemma {:induction false} OfIdNone(a: seq<Lyric>, id: U32)
    requires forall i | 0 <= i < |a| :: a[i].id != id
    ensures OfId(a, id) == []
  {
    if |a| > 0 { OfIdNone(a[1..], id); }
  }

  lemma OfIdOne(r: Lyric, id: U32)
    ensures OfId([r], id) == if r.id == id then [r] else []
  {
    assert OfId([r][1..], id) == [];
  }

  lemma PutSorted(info: seq<Lyric>, r: Lyric)
    requires SortedById(info)
    ensures SortedById(Put(info, r))
  {
    var at := UpperBound(info, r.id, 0);
    forall j | at <= j < |info|
      ensures info[j].id > r.id
    {
      if at < j { assert info[at].id <= info[j].id; }
    }
  }

  lemma PutSplits(info: seq<Lyric>, r: Lyric)
    ensures
      var at := UpperBound(info, r.id, 0);
      Put(info, r) == info[..at] + [r] + info[at..] && info == info[..at] + info[at..]
  {}

  lemma PutOfId(info: seq<Lyric>, r: Lyric, id: U32)
    requires SortedById(info)
    ensures OfId(Put(info, r), id) == OfId(info, id) + if r.id == id then [r] else []
  {
    hide OfId, Put;
    PutSplits(info, r);
    var at := UpperBound(info, r.id, 0);
    var l, h := info[..at], info[at..];
    OfIdOne(r, id);
    OfIdConcat(l, [r], id);
    OfIdConcat(l + [r], h, id);
    OfIdConcat(l, h, id);
    if r.id == id {
      forall j | 0 <= j < |h|
        ensures h[j].id != id
      {
        if j > 0 { assert info[at].id <= info[at + j].id; }
      }
      OfIdNone(h, id);
    }
  }

  lemma PutMultiset(info: seq<Lyric>, r: Lyric)
    ensures multiset(Put(info, r)) == multiset(info) + multiset{r}
  {
    hide Put;
    PutSplits(info, r);
  }

  /** The table is the stable sort of the records by id: sorted, and for every id the same records
      in the same order. */
  lemma {:induction false} TableIsStableSort(records: seq<Lyric>, n: nat, id: U32)
    requires n <= |records|
    ensures SortedById(Table(records, n)) && OfId(Table(records, n), id) == OfId(records[..n], id)
    ensures multiset(Table(records, n)) == multiset(records[..n])
  {
    hide OfId, Put, SortedById;
    if n == 0 {
      SortedNone();
    } else {
      TableIsStableSort(records, n - 1, id);
      PutSorted(Table(records, n - 1), records[n - 1]);
      PutOfId(Table(records, n - 1), records[n - 1], id);
      PutMultiset(Table(records, n - 1), records[n - 1]);
      OfIdConcat(records[..n - 1], [records[n - 1]], id);
      OfIdOne(records[n - 1], id);
      assert records[..n] == records[..n - 1] + [records[n - 1]];
    }
  }

  lemma SortedNone()
    ensures SortedById([])
  {}

  lemma {:induction false} OfIdHas(a: seq<Lyric>, id: U32)
    requires OfId(a, id) != []
    ensures exists i | 0 <= i < |a| :: a[i].id == id
  {
    if a[0].id != id {
      OfIdHas(a[1..], id);
      var i :| 0 <= i < |a[1..]| && a[1..][i].id == id;
      assert a[i + 1].id == id;
    }
  }

  lemma FirstIdAtMost(a: seq<Lyric>, b: seq<Lyric>)
    requires SortedById(a) && |b| > 0 && forall id: U32 :: OfId(a, id) == OfId(b, id)
    ensures |a| > 0 && a[0].id <= b[0].id
  {
    assert OfId(a, b[0].id) == OfId(b, b[0].id) != [];
    OfIdHas(a, b[0].id);
  }

  lemma OfIdRest(a: seq<Lyric>, b: seq<Lyric>, id: U32)
    requires |a| > 0 && |b| > 0 && a[0] == b[0] && OfId(a, id) == OfId(b, id)
    ensures OfId(a[1..], id) == OfId(b[1..], id)
  {
    if a[0].id == id {
      assert OfId(a[1..], id) == OfId(a, id)[1..] && OfId(b[1..], id) == OfId(b, id)[1..];
    }
  }

  /** ... and nothing else is: two tables sorted by id with the same records per id are one. */
  lemma {:induction false} StableSortUnique(a: seq<Lyric>, b: seq<Lyric>)
    requires SortedById(a) && SortedById(b) && forall id: U32 :: OfId(a, id) == OfId(b, id)
    ensures a == b
  {
    if |a| > 0 || |b| > 0 {
      if |a| > 0 { FirstIdAtMost(b, a); }
      if |b| > 0 { FirstIdAtMost(a, b); }
      assert a[0] == OfId(a, a[0].id)[0] == OfId(b, a[0].id)[0] == b[0];
      forall id: U32
        ensures OfId(a[1..], id) == OfId(b[1..], id)
      {
        OfIdRest(a, b, id);
      }
      StableSortUnique(a[1..], b[1..]);
    }
  }

  // ---- looking up

  /** Keys as getLyric10Word compares them: id first, then type. */
  predicate Below(r: Lyric, id: U32, abc: Byte) { r.id < id || (r.id == id && r.abc < abc) }

  predicate IsKey(r: Lyric, id: U32, abc: Byte) { r.id == id && r.abc == abc }

  /** The binary search between low and high: the index it stops at, or -1. */
  function Search(info: seq<Lyric>, low: nat, high: nat, id: U32, abc: Byte): (at: int)
    requires low <= high <= |info|
    ensures at == -1 || (low <= at < high && IsKey(info[at], id, abc))
    decreases high - low
  {
    if low == high then -1
    else
      var mid := low + (high - 1 - low) / 2;
      if IsKey(info[mid], id, abc) then mid
      else if Below(info[mid], id, abc) then Search(info, mid + 1, high, id, abc)
      else Search(info, low, mid, id, abc)
  }

  /** Of records with one id and type throughout, the middle one is answered, of two the first. */
  lemma SameKeyMiddle(info: seq<Lyric>, id: U32, abc: Byte)
    requires |info| > 0 && forall i | 0 <= i < |info| :: info[i].id == id && info[i].abc == abc
    ensures
      var at := Search(info, 0, |info|, id, abc);
      2 * at + 1 == |info| || 2 * at + 2 == |info|
  {}

  ghost predicate HasKey(info: seq<Lyric>, id: U32, abc: Byte)
  {
    exists i | 0 <= i < |info| :: IsKey(info[i], id, abc)
  }

  ghost predicate SortedByKey(info: seq<Lyric>, low: nat, high: nat)
    requires low <= high <= |info|
  {
    forall i, j | low <= i < j < high ::
      Below(info[i], info[j].id, info[j].abc) || IsKey(info[i], info[j].id, info[j].abc)
  }

  lemma OrderedKeys(a: Lyric, b: Lyric)
    ensures IsKey(a, b.id, b.abc) <==> IsKey(b, a.id, a.abc)
    ensures IsKey(a, a.id, a.abc)
    ensures Below(a, b.id, b.abc) ==> !Below(b, a.id, a.abc) && !IsKey(b, a.id, a.abc)
  {}

  /** Where the record to find lies from the middle. */
  lemma KeyBefore(info: seq<Lyric>, low: nat, high: nat, i: nat)
    requires low <= i < high <= |info| && SortedByKey(info, low, high)
    ensures
      var mid := low + (high - 1 - low) / 2;
      && SortedByKey(info, low, mid) && SortedByKey(info, mid + 1, high)
      && (i < mid ==> Below(info[i], info[mid].id, info[mid].abc) || IsKey(info[i], info[mid].id, info[mid].abc))
      && (mid < i ==> Below(info[mid], info[i].id, info[i].abc) || IsKey(info[mid], info[i].id, info[i].abc))
  {
    hide Below, IsKey;
  }

  /** In a table sorted by id and type, a record that is there is found. */
  lemma {:induction false} SearchFinds(info: seq<Lyric>, low: nat, high: nat, i: nat)
    requires low <= i < high <= |info| && SortedByKey(info, low, high)
    ensures Search(info, low, high, info[i].id, info[i].abc) != -1
    decreases high - low
  {
    hide Below, IsKey, SortedByKey;
    KeyBefore(info, low, high, i);
    var mid := low + (high - 1 - low) / 2;
    OrderedKeys(info[i], info[mid]);
    OrderedKeys(info[mid], info[i]);
    if i < mid {
      SearchFinds(info, low, mid, i);
    } else if i > mid {
      SearchFinds(info, mid + 1, high, i);
    }
  }

  ghost predicate DistinctKeys(info: seq<Lyric>)
  {
    forall i, j | 0 <= i < j < |info| :: !IsKey(info[i], info[j].id, info[j].abc)
  }

  ghost predicate FindsAll(info: seq<Lyric>, low: nat, high: nat)
    requires low <= high <= |info|
  {
    forall i | low <= i < high :: Search(info, low, high, info[i].id, info[i].abc) == i
  }

  /** Finding everything through the middle means finding everything on either side of it, and the
      sides lie on their sides. */
  lemma FindsSides(info: seq<Lyric>, low: nat, high: nat, mid: nat)
    requires low < high <= |info| && mid == low + (high - 1 - low) / 2
    requires DistinctKeys(info) && FindsAll(info, low, high)
    ensures FindsAll(info, low, mid) && FindsAll(info, mid + 1, high)
    ensures forall i | low <= i < mid :: !Below(info[mid], info[i].id, info[i].abc)
    ensures forall i | mid < i < high :: Below(info[mid], info[i].id, info[i].abc)
  {
    hide Search, Below, IsKey, DistinctKeys;
    forall i | low <= i < high && i != mid
      ensures i < mid ==>
        !Below(info[mid], info[i].id, info[i].abc) && Search(info, low, mid, info[i].id, info[i].abc) == i
      ensures i > mid ==>
        Below(info[mid], info[i].id, info[i].abc) && Search(info, mid + 1, high, info[i].id, info[i].abc) == i
    {
      SearchStep(info, low, high, info[i].id, info[i].abc);
      assert Search(info, low, high, info[i].id, info[i].abc) == i;
    }
  }

  lemma SortedAround(info: seq<Lyric>, low: nat, high: nat, mid: nat)
    requires low <= mid < high <= |info| && DistinctKeys(info)
    requires SortedByKey(info, low, mid) && SortedByKey(info, mid + 1, high)
    requires forall i | low <= i < mid :: !Below(info[mid], info[i].id, info[i].abc)
    requires forall i | mid < i < high :: Below(info[mid], info[i].id, info[i].abc)
    ensures SortedByKey(info, low, high)
  {}

  /** The converse, for distinct keys: a search that finds everything has a sorted table. */
  lemma {:induction false} FindsAllSorted(info: seq<Lyric>, low: nat, high: nat)
    requires low <= high <= |info| && DistinctKeys(info) && FindsAll(info, low, high)
    ensures SortedByKey(info, low, high)
    decreases high - low
  {
    hide Search, DistinctKeys, FindsAll, Below, IsKey;
    if low < high {
      var mid := low + (high - 1 - low) / 2;
      FindsSides(info, low, high, mid);
      FindsAllSorted(info, low, mid);
      FindsAllSorted(info, mid + 1, high);
      SortedAround(info, low, high, mid);
    }
  }

  /** Every record that is in the table is found, and nothing else. */
  ghost predicate LooksUp(info: seq<Lyric>)
  {
    forall id: U32, abc: Byte :: Search(info, 0, |info|, id, abc) != -1 <==> HasKey(info, id, abc)
  }

  lemma SortedLooksUp(info: seq<Lyric>)
    requires SortedByKey(info, 0, |info|)
    ensures LooksUp(info)
  {
    forall id: U32, abc: Byte
      ensures Search(info, 0, |info|, id, abc) != -1 <==> HasKey(info, id, abc)
    {
      if HasKey(info, id, abc) {
        var i :| 0 <= i < |info| && IsKey(info[i], id, abc);
        SearchFinds(info, 0, |info|, i);
      }
    }
  }

  lemma LooksUpFindsAll(info: seq<Lyric>)
    requires LooksUp(info) && DistinctKeys(info)
    ensures FindsAll(info, 0, |info|)
  {
    forall i | 0 <= i < |info|
      ensures Search(info, 0, |info|, info[i].id, info[i].abc) == i
    {
      assert IsKey(info[i], info[i].id, info[i].abc);
      assert HasKey(info, info[i].id, info[i].abc);
      var at := Search(info, 0, |info|, info[i].id, info[i].abc);
      assert IsKey(info[at], info[i].id, info[i].abc);
    }
  }

  /** In the file, records of one id come in the order of their types. */
  ghost predicate TypesAscend(records: seq<Lyric>)
  {
    forall i, j | 0 <= i < j < |records| && records[i].id == records[j].id :: records[i].abc <= records[j].abc
  }

  ghost predicate AscendOf(records: seq<Lyric>, id: U32) { TypesAscend(OfId(records, id)) }

  lemma OfIdIn(a: seq<Lyric>, id: U32, x: Lyric)
    ensures x in OfId(a, id) <==> x in a && x.id == id
  {
    if |a| > 0 {
      OfIdIn(a[1..], id, x);
      assert a == [a[0]] + a[1..];
    }
  }

  lemma {:induction false} AscendPerId(a: seq<Lyric>)
    ensures TypesAscend(a) <==> forall id: U32 :: AscendOf(a, id)
  {
    if |a| > 0 {
      AscendPerId(a[1..]);
      HeadAscends(a);
      AscendCons(a);
      if TypesAscend(a) {
        forall id: U32
          ensures AscendOf(a, id)
        {
          assert AscendOf(a[1..], id);
        }
      }
      if forall id: U32 :: AscendOf(a, id) {
        assert AscendOf(a, a[0].id);
        forall id: U32
          ensures AscendOf(a[1..], id)
        {
          assert AscendOf(a, id);
        }
      }
    }
  }

  ghost predicate HeadBelow(a: seq<Lyric>)
    requires |a| > 0
  {
    forall x | x in a[1..] && x.id == a[0].id :: a[0].abc <= x.abc
  }

  lemma HeadAscends(a: seq<Lyric>)
    requires |a| > 0
    ensures TypesAscend(a) <==> TypesAscend(a[1..]) && HeadBelow(a)
  {
    if TypesAscend(a[1..]) && HeadBelow(a) {
      forall i, j | 0 <= i < j < |a| && a[i].id == a[j].id
        ensures a[i].abc <= a[j].abc
      {
        assert a[j] == a[1..][j - 1];
        if i > 0 { assert a[i] == a[1..][i - 1]; }
      }
    }
    if TypesAscend(a) {
      assert forall i, j | 0 <= i < j < |a[1..]| && a[1..][i].id == a[1..][j].id :: a[i + 1].abc <= a[j + 1].abc;
    }
  }

  lemma AscendCons(a: seq<Lyric>)
    requires |a| > 0
    ensures AscendOf(a, a[0].id) <==> AscendOf(a[1..], a[0].id) && HeadBelow(a)
  {
    var id := a[0].id;
    var all, rest := OfId(a, id), OfId(a[1..], id);
    assert all[0] == a[0] && all[1..] == rest;
    HeadAscends(all);
    forall x
      ensures x in rest <==> x in a[1..] && x.id == id
    {
      OfIdIn(a[1..], id, x);
    }
  }

  lemma SortedByKeyIff(info: seq<Lyric>)
    requires SortedById(info)
    ensures SortedByKey(info, 0, |info|) <==> TypesAscend(info)
  {}

  /** Lookup in the parsed table is right whenever the file gives the types of each id in order... */
  lemma ParsedLooksUp(records: seq<Lyric>)
    requires TypesAscend(records)
    ensures LooksUp(Table(records, |records|))
  {
    TableAscends(records);
    SortedLooksUp(Table(records, |records|));
  }

  lemma TableAscends(records: seq<Lyric>)
    ensures SortedByKey(Table(records, |records|), 0, |Table(records, |records|)|) <==> TypesAscend(records)
  {
    hide TypesAscend, OfId, SortedById, SortedByKey;
    var info := Table(records, |records|);
    assert records[..|records|] == records;
    forall id: U32
      ensures AscendOf(info, id) <==> AscendOf(records, id)
    {
      TableIsStableSort(records, |records|, id);
    }
    TableIsStableSort(records, |records|, 0);
    AscendPerId(info);
    AscendPerId(records);
    SortedByKeyIff(info);
  }

  /** ... and, when no id and type come twice, only then. */
  lemma ParsedLooksUpIff(records: seq<Lyric>)
    requires DistinctKeys(Table(records, |records|))
    ensures LooksUp(Table(records, |records|)) <==> TypesAscend(records)
  {
    var info := Table(records, |records|);
    TableAscends(records);
    if LooksUp(info) {
      LooksUpFindsAll(info);
      FindsAllSorted(info, 0, |info|);
    }
    if TypesAscend(records) { ParsedLooksUp(records); }
  }

  lemma HasKeyOf(a: seq<Lyric>, b: seq<Lyric>, id: U32, abc: Byte)
    requires multiset(a) == multiset(b) && HasKey(a, id, abc)
    ensures HasKey(b, id, abc)
  {
    var i :| 0 <= i < |a| && IsKey(a[i], id, abc);
    assert a[i] in multiset(b);
  }

  lemma TableHasKey(records: seq<Lyric>, id: U32, abc: Byte)
    ensures HasKey(Table(records, |records|), id, abc) <==> HasKey(records, id, abc)
  {
    hide Table, HasKey, OfId, SortedById;
    var info := Table(records, |records|);
    TableIsStableSort(records, |records|, id);
    assert records[..|records|] == records;
    if HasKey(info, id, abc) { HasKeyOf(info, records, id, abc); }
    if HasKey(records, id, abc) { HasKeyOf(records, info, id, abc); }
  }

  /** From request to lookup: what do_insert_lyric wrote and parseLyric10Words read is found under
      its id and type, and nothing else is. */
  lemma WrittenLooksUp(songs: seq<Source>)
    requires AllSurvive(songs) && TypesAscend(Told(songs, |songs|))
    ensures
      var data, told := PrintAll(songs, |songs|), Told(songs, |songs|);
      && Whole(data, 0)
      && var info := Table(Parsed(data, 0), |Parsed(data, 0)|);
         forall id: U32, abc: Byte :: Search(info, 0, |info|, id, abc) != -1 <==> HasKey(told, id, abc)
  {
    PrintAllParses(songs);
    var told := Told(songs, |songs|);
    ParsedLooksUp(told);
    forall id: U32, abc: Byte
      ensures HasKey(Table(told, |told|), id, abc) <==> HasKey(told, id, abc)
    {
      TableHasKey(told, id, abc);
    }
  }

  /** Two records of one song in the wrong order: the second is there and not found. */
  lemma WrongOrderMisses(text: Str)
    ensures
      var info := Table([Lyric(2, 7, text), Lyric(1, 7, text)], 2);
      HasKey(info, 7, 1) && Search(info, 0, |info|, 7, 1) == -1
  {
    var records := [Lyric(2, 7, text), Lyric(1, 7, text)];
    assert Table(records, 0) == [];
    assert Table(records, 1) == [records[0]];
    assert UpperBound([records[0]], 7, 0) == 1;
    var info := Table(records, 2);
    assert info == records;
    assert IsKey(info[1], 7, 1);
  }

  // ---- the parser and the searches as they run

  class LyricTable {
    /** lyr10WordInfo */
    var info: seq<Lyric>

    constructor ()
      ensures info == []
    {
      info := [];
    }

    /** indexOfSongIdLyric */
    method IndexOf(id: U32) returns (index: nat)
      requires SortedById(info)
      ensures index == UpperBound(info, id, 0)
    {
      var low, high := 0, |info| - 1;
      while low <= high
        invariant 0 <= low <= high + 1 <= |info|
        invariant forall i | 0 <= i < low :: info[i].id <= id
        invariant forall i | high < i < |info| :: info[i].id > id
        decreases high - low
      {
        var mid := low + (high - low) / 2;
        if info[mid].id > id {
          high := mid - 1;
        } else {
          low := mid + 1;
        }
      }
      index := low;
      assert index < |info| ==> info[index].id > id;
      assert UpperBound(info, id, 0) < |info| ==> info[UpperBound(info, id, 0)].id > id;
    }

    /** memccpy of one text, stopped by the byte 01 or by the room, and read as a C string. */
    static method CopyText(data: Str, pos: nat, room: nat) returns (text: Str)
      requires pos + room <= |data|
      ensures text == TextAt(data, pos, room)
    {
      var lyricText := new Byte[room + 1](_ => 0);
      var n := 0;
      while n < room
        invariant n <= room
        invariant forall k | 0 <= k < n :: lyricText[k] == data[pos + k]
        invariant forall k | 0 <= k < n :: lyricText[k] != 1
        invariant forall k | n <= k <= room :: lyricText[k] == 0
      {
        lyricText[n] := data[pos + n];
        n := n + 1;
        if lyricText[n - 1] == 1 { break; }
      }
      CopiedText(data, pos, room, n, lyricText[..]);
      text := CString(lyricText[..], 0);
    }

    /** parseLyric10Words */
    method ParseLyric10Words(data: Str)
      requires Whole(data, 0)
      modifies this
      ensures info == Table(Parsed(data, 0), |Parsed(data, 0)|)
    {
      hide TextAt, Parsed, IdAt, Whole, UpperBound, Catalogue.Insert;
      info := [];
      ghost var records := Parsed(data, 0);
      ghost var n: nat := 0;
      var pos: nat := 0;
      while pos < |data|
        invariant n <= |records| && Whole(data, pos) && records[n..] == Parsed(data, pos)
        invariant info == Table(records, n)
        decreases |data| - pos
      {
        ParsedStep(data, pos);
        if data[pos] != 1 { break; }
        var length: nat, abc := data[pos + 1], data[pos + 2];
        var id := IdAt(data, pos);
        var room := (length + 0x100 - (1 + 3)) % 0x100;
        var text := CopyText(data, pos + HEADER, room);
        assert records[n] == Lyric(abc, id, text) && records[n + 1..] == records[n..][1..];
        pos := pos + HEADER + room;
        SortedTable(records, n);
        var index := IndexOf(id);
        info := Catalogue.Insert(info, index, Lyric(abc, id, text));
        n := n + 1;
      }
      ParsedStep(data, pos);
    }

    /** getLyric10Word */
    method GetLyric10Word(id: U32, abc: Byte) returns (text: Option<Str>)
      ensures
        var at := Search(info, 0, |info|, id, abc);
        text == if at == -1 then None else Some(info[at].text)
    {
      hide Search;
      var low, high := 0, |info| - 1;
      while low <= high
        invariant 0 <= low <= high + 1 <= |info|
        invariant Search(info, 0, |info|, id, abc) == Search(info, low, high + 1, id, abc)
        decreases high - low
      {
        var mid := low + (high - low) / 2;
        SearchStep(info, low, high + 1, id, abc);
        if info[mid].id > id {
          high := mid - 1;
        } else if info[mid].id < id {
          low := mid + 1;
        } else if info[mid].abc > abc {
          high := mid - 1;
        } else if info[mid].abc < abc {
          low := mid + 1;
        } else {
          return Some(info[mid].text);
        }
      }
      SearchStep(info, low, high + 1, id, abc);
      return None;
    }
  }

  lemma SearchStep(info: seq<Lyric>, low: nat, high: nat, id: U32, abc: Byte)
    requires low <= high <= |info|
    ensures
      Search(info, low, high, id, abc)
      == if low == high then -1
         else
           var mid := low + (high - 1 - low) / 2;
           if IsKey(info[mid], id, abc) then mid
           else if Below(info[mid], id, abc) then Search(info, mid + 1, high, id, abc)
           else Search(info, low, mid, id, abc)
  {}

  lemma ParsedStep(data: Str, pos: nat)
    requires Whole(data, pos)
    ensures pos >= |data| || data[pos] != 1 ==> Parsed(data, pos) == []
    ensures pos < |data| && data[pos] == 1 ==>
      && WholeAt(data, pos)
      && var room := TextRoom(data, pos);
         Whole(data, pos + HEADER + room)
         && Parsed(data, pos) == [Lyric(data[pos + 2], IdAt(data, pos), TextAt(data, pos + HEADER, room))]
                                 + Parsed(data, pos + HEADER + room)
  {}

  lemma SortedTable(records: seq<Lyric>, n: nat)
    requires n <= |records|
    ensures SortedById(Table(records, n))
  {
    TableIsStableSort(records, n, 0);
  }

  /** n bytes copied, up to and with the first 01 among room, the rest zero: the C string of the copy. */
  lemma CopiedText(data: Str, pos: nat, room: nat, n: nat, copy: Str)
    requires n <= room && pos + room <= |data| && |copy| == room + 1
    requires forall k | 0 <= k < n :: copy[k] == data[pos + k]
    requires forall k | n <= k <= room :: copy[k] == 0
    requires forall k | 0 <= k < n - 1 :: copy[k] != 1
    requires n < room ==> n > 0 && copy[n - 1] == 1
    ensures CString(copy, 0) == TextAt(data, pos, room)
  {
    TextStops(data, pos, room);
    var t := TextAt(data, pos, room);
    if n < room && n - 1 < |t| {
      assert data[pos + (n - 1)] == t[n - 1];
    }
    forall i | 0 <= i < 0 + |t|
      ensures copy[i] == t[i - 0]
    {
      assert data[pos + i] == t[i];
    }
    if |t| < n {
      assert copy[|t|] == data[pos + |t|];
      if |t| > 0 { assert copy[|t| - 1] == data[pos + (|t| - 1)] == t[|t| - 1]; }
    }
    CStringIs(copy, 0, t);
  }

  /** What TextAt takes: nonzero bytes, 01 only last; it stops for a zero, a 01 taken, or the room. */
  lemma {:induction false} TextStops(data: Str, pos: nat, room: nat)
    requires pos + room <= |data|
    ensures
      var t := TextAt(data, pos, room);
      && |t| <= room && NulFree(t)
      && (forall i | 0 <= i < |t| :: data[pos + i] == t[i])
      && (forall i | 0 <= i < |t| - 1 :: t[i] != 1)
      && (|t| == room || data[pos + |t|] == 0 || (|t| > 0 && t[|t| - 1] == 1))
    decreases room
  {
    if room > 0 && data[pos] != 0 && data[pos] != 1 {
      TextStops(data, pos + 1, room - 1);
      var t, u := TextAt(data, pos, room), TextAt(data, pos + 1, room - 1);
      forall i | 0 <= i < |t|
        ensures data[pos + i] == t[i]
      {
        if i > 0 { assert data[(pos + 1) + (i - 1)] == u[i - 1]; }
      }
    }
  }
}
