# The song index, its codecs and the lookups around it

A karaoke player keeps its songs in an index file: a header, a table of artists, a table of songs and six pools of
strings and clip lists, masked byte by byte. Songs point at artists by position in the artist table; both tables point
into the pools by offset. An update comes as another such file and is merged in: artists are inserted in the middle of
their table, every index in every song is shifted in place, songs are deleted and inserted with a search that resumes
where the last one ended, strings are appended, offsets are made relative and absolute again, and the whole is laid out,
masked and written. A second way in takes artists and songs as strings from the user. This project models both ways
from file bytes to file bytes, proves what they keep, and does the same for the lyric file, the base64 and keyed codecs,
the UTF-8 and UTF-16 routines, the cursor window fill, the registered collation, the two-thread name lookup and the
relabelling of song slots by database row ids.

## How it is built

- `Catalogue` is the meaning of an index: records with their strings in place of offsets, and the steps of a merge on
  them. `References`, `Conservation`, `SortedMerge`, `ArtistOrder` and `PositionMap` prove what the steps keep.
- `Weave` is a second definition of where things are inserted, one walk through the table, and `ArtistOrigin` one of what
  becomes of each artist record; both ways in are proved equal to them, whatever the order of the names (the add-song
  path as far as no new artist goes to the end of its table).
- `Image` is the index in memory: records with offsets into pools. Each kind of change to it is shown to be the
  corresponding change of the catalogue it reads as.
- `TocTable` is the merge as it runs: a class over arrays, changed in place, each method equated with a step of the
  catalogue.
- `RunOn` is about tables some of whose clip lists have run on into lists stored after them.
- `PoolRoom` adds up what strings take of the pools, for the rooms both ways in set aside.
- `RecordBytes`, `TocFile` and `IndexMask` are the file: words, layout, offsets, mask. `MergeToc` puts all of it together.
- `AddArtist`, `AddSong`, `AddToToc` and `AddToIndex` are the same for songs added by the user; `ArtistList` and
  `Relabel` are the code before and after it.
- `Lyrics`, `Base64`, `KeyedCodec`, `Utf8Title`, `Utf16`, `CursorWindow` and `NameQuery` stand alone, one per component.

The name comparison (`Kok_CmpUTF8Str`) is a parameter `less`; only the ordering theorems ask anything of it, and then
that it is the strict part of a total preorder. The capacity of a cursor window, the pinyin of a name and the row ids a
database gives are parameters too.

## What turned out false, and exactly when it holds

- Versions are compared as 100 * version + revision: an update of a later release is refused, and one of an earlier
  release taken, exactly when a revision of 100 or more makes up for the version (`TocFile.NewerIff`).
- The search for a place starts one past the cursor, so entry 0 of a table is never displaced, and songs of language 3
  and above go to the end. If the table is sorted and the searched songs come in order, the merged table is sorted
  exactly when no searched song sorts before entry 0 and each of those at the end behind everything before it
  (`SortedMerge.InsertPassMergesIff`, `ArtistOrder.ArtistsSortedIff`).
- If the searched songs come in order, a recorded position goes stale exactly when a searched song comes after one of
  language 3 or above and sorts before that one or before an old song behind entry 0 (`PositionMap.PositionsHoldIff`).
- A clip list that counts 128 clips or more is read as the continuation of the list stored before it: a song is stored
  right exactly when its list is shorter or nothing in the pool is open at its end (`Image.ReadPutSong`); a whole merge
  or request, exactly when at most the first list stored is such a one (`TocTable.TocTable.MergeSongInfo`,
  `AddToToc.InsertSong`). The flags behind a list are copied only if their bit 7 is set (`Records.FlagsKeptIff`).
- Of two songs of one request with the same code the later one, if its language is below 3, is found where the earlier
  one is, and rewrites its slots (`AddSong.PutSongsLandIff`).
- Artists added by the user all get singerIdx 0; later merges can tell them apart exactly when there is at most one
  (`AddArtist.AddedSingersDistinctIff`).
- The required row of a cursor window is copied exactly when no row from startPos to it is too large for an empty window
  (`CursorWindow.RequiredRowIff`).
- On the add-song path a new artist for the end of the table is written one place too far; every artist of the request
  knows its record exactly when every new one has a language below 3 and the table was not empty (`AddArtist.IndexesRightIff`).
- A lyric record's length is one byte and wraps, and is read back with the same wrap: texts survive up to 254 bytes
  (`Lyrics.PrintedParsesIff`).
- Lyric lookup by id and type finds everything exactly when the file gives each id's types in order (`Lyrics.ParsedLooksUpIff`).
- Folding a title twice differs from folding it once exactly when the string holds an overlong zero (`Utf8Title.TitleTwiceIff`).
- In-place relabelling by row ids is right exactly when no used artist's row id, being a later artist's index, leads on to
  another one, and no row id that reads as 65535 cuts a slot off too early (`Relabel.RelabelsIff`).
- The exception of a failed name lookup is null exactly when the first query died with an Error (`NameQuery.ResultIsRight`).
- The comment on the cursor window says that the last row copied precedes nRow; when no row is copied because startPos is
  past the end, nRow is the number of rows, as the code has it.

## Model

| member | source | states |
|---|---|---|
| `References.MergeArtistsFollows` | LibSmart/jni/parse_toc/TocMerge.cpp:1676-1712 | however many artists are inserted and wherever, every song already in the index keeps the same artist in every slot |
| `References.MergeArtistsTakes` | LibSmart/jni/parse_toc/TocMerge.cpp:1661-1683 | every artist of the update has a record afterwards, with its singerIdx and its roles; a new one has its strings, language and every other field, and twice its song counts as singer and as author, in 22 bits each |
| `ArtistOrigin.MergeArtistsMakes` | LibSmart/jni/parse_toc/TocMerge.cpp:1654-1716 | record by record, where the merged table comes from: every old record once, in order, changed in nothing but the roles that the update's artists of its singerIdx bring, if it is the first with it; and every singerIdx the table did not have once, from the first artist bringing it, with the roles of all who do and its counts twice |
| `ArtistOrigin.MergedRolesIff` | LibSmart/jni/parse_toc/TocMerge.cpp:1665-1670 | a merged artist is a singer, or an author, exactly if the index or the update has one of that singerIdx who is |
| `References.MergeArtistsDistinct` | LibSmart/jni/parse_toc/TocMerge.cpp:1663-1676 | singerIdx values that were distinct stay distinct |
| `References.RelinkLinks` | LibSmart/jni/parse_toc/TocMerge.cpp:1776-1803 | slots of an update song are re-pointed, one by one, to artists of the merged table with the singerIdx they had in the update |
| `References.RelinkSlot` | LibSmart/jni/parse_toc/TocMerge.cpp:1776-1803 | for any slots, valid or not: each in use gets the first record with the singerIdx of the artist it names, or of the update's first artist if it names none, and stays if there is none; the slots behind stay |
| `Weave.InsertPassWeaves` | LibSmart/jni/parse_toc/TocMerge.cpp:1744-1771 | for any table, update and comparison, sorted or not, the insertion loop is one walk through the table: each accepted song of language below 3 goes in front of the first song met that sorts behind it, the others to the end |
| `Weave.WeaveIsMerge` | LibSmart/jni/parse_toc/TocMerge.cpp:2168-2204 | without songs of language 3 and above that walk is the textbook merge, in whatever order the songs come |
| `Weave.ArtistsWoven` | LibSmart/jni/parse_toc/TocMerge.cpp:1654-1683 | the artist loop is the same walk with the artists the table did not have |
| `Weave.MergeWeaves` | LibSmart/jni/parse_toc/TocMerge.cpp:1718-1806 | the whole song half of a merge: the songs not deleted, slots moved along, and the accepted ones, slots re-pointed, in one walk |
| `ArtistOrder.ArtistsSortedIff` | LibSmart/jni/parse_toc/TocMerge.cpp:1676-1683 | on a sorted table, new artists of language below 3 in order: every new artist is at its upper bound, and the merged table sorted, exactly when none sorts before entry 0 and each of language 3 and above behind everything before it |
| `ArtistOrder.ArtistsConserved` | LibSmart/jni/parse_toc/TocMerge.cpp:1661-1683 | no artist is lost, each new one is stored once, the old ones keep their order |
| `Conservation.DeletePassDeletes` | LibSmart/jni/parse_toc/TocMerge.cpp:1727-1741 | when code and ABC type name one song each, the deletion loop leaves exactly the songs no mark names, in order; what a mark is, `TocTable.MarksIff` says |
| `Conservation.DeletePassKeeps` | LibSmart/jni/parse_toc/TocMerge.cpp:1727-1741 | for any table, the deletion loop leaves a subsequence and removes at most one song per mark |
| `Conservation.InsertPassConserves` | LibSmart/jni/parse_toc/TocMerge.cpp:1744-1771 | the insertion loop keeps every song, in order, and adds each accepted update song once: contents, count and set of codes |
| `Conservation.InsertPassDistinct` | LibSmart/jni/parse_toc/TocMerge.cpp:1752-1759 | the insertion loop never stores a song_code6 twice |
| `Conservation.MergeKeepsOldSongs` | LibSmart/jni/parse_toc/TocMerge.cpp:1718-1806 | whole merge: the old songs that were not deleted are all there, in their order, with their strings, clips, codes and artists |
| `Conservation.MergeAddsNewSongs` | LibSmart/jni/parse_toc/TocMerge.cpp:1744-1803 | whole merge: the other songs are exactly the accepted update songs, with slots naming the singers they named in the update; the counts add up |
| `Conservation.MergeKeepsCodesDistinct` | LibSmart/jni/parse_toc/TocMerge.cpp:1727-1771 | whole merge: distinct codes stay distinct |
| `Conservation.MergeInTable` | LibSmart/jni/parse_toc/TocMerge.cpp:1654-1806 | whole merge: every slot in use leads to an artist of the merged table, so the result can be merged into again |
| `SortedMerge.InsertPassMergesIff` | LibSmart/jni/parse_toc/TocMerge.cpp:1761-1771 | on a sorted table, searched songs in order, songs of language 3 and above anywhere among them: the resumed-cursor insertion puts every accepted song at its upper bound, and leaves a sorted table, exactly when no searched one sorts before entry 0 and each late one sorts behind everything before it; if all come in order it is the stable merge |
| `SortedMerge.SearchedBelongIff` | LibSmart/jni/parse_toc/TocMerge.cpp:2201-2201 | with no late song among them, that is a question of the first accepted song and entry 0 |
| `SortedMerge.MergeSortedIff` | LibSmart/jni/parse_toc/TocMerge.cpp:2168-2204 | the same for a whole merge with its deletions and new artists, told from the index and the update: sorted exactly under that condition |
| `PositionMap.PositionsHoldIff` | LibSmart/jni/parse_toc/TocMerge.cpp:1761-1771 | on any table, with searched songs in order: every recorded pMapIndex entry points at its song at the end exactly when no searched song that comes after a song of language 3 and above sorts before that one or before an old song behind entry 0 |
| `PositionMap.VolumeCheckIff` | LibSmart/jni/parse_toc/TocMerge.cpp:1916-1931 | under the same assumption the check that opens the volume merge passes exactly when no update song is skipped and none overtakes in that way |
| `PositionMap.MergeVolumeCheckIff` | LibSmart/jni/parse_toc/TocMerge.cpp:1718-1931 | the same for a whole merge, told from the index and the update as read: deletions and new artists change nothing in the condition |
| `PositionMap.VolumeCheckPasses` | LibSmart/jni/parse_toc/TocMerge.cpp:1916-1931 | whatever the order of names, tables sorted or not: if no update song is skipped and those of language 3 and above come last, the check passes |
| `PositionMap.VolumeCheckCanFail` | LibSmart/jni/parse_toc/TocMerge.cpp:1761-1771 | with the order reversed it fails: a concrete Korean song is pushed on by a Vietnamese one |
| `Image.ReadPutArtist` | LibSmart/jni/parse_toc/TocMerge.cpp:2127-2140 | a record inserted with its strings appended to the pools reads as that artist at that place, everything else as before |
| `Image.ReadPutSong` | LibSmart/jni/parse_toc/TocMerge.cpp:2206-2233 | a song stored with its strings and clip list reads as that song at that place, everything else as before, exactly when its list counts fewer than 128 clips or no list runs into the end of the pool; without a list it gets the pool's first, and leads nowhere exactly when there is none |
| `RunOn.LikePutSong` | LibSmart/jni/parse_toc/TocMerge.cpp:2206-2233 | whatever the lists, everything but lists reads right; and once a list has run on, the table never reads right again |
| `Image.StoredListOpen` | LibSmart/jni/parse_toc/TocMerge.cpp:2220-2230 | a list just stored does run into the end of the pool, so a list of 128 clips and more can only come first |
| `Image.GrownRead` | LibSmart/jni/parse_toc/TocMerge.cpp:2206-2233 | appending to the pools changes nothing that is read through the existing offsets exactly when the bytes appended to the clip pool do not go on from a list at its end |
| `Image.ReadShiftSongs` | LibSmart/jni/parse_toc/TocMerge.cpp:1690-1712 | shifting slots in the records is shifting them in the index that is read |
| `Image.ReadRemoveSong` | LibSmart/jni/parse_toc/TocMerge.cpp:2316-2317 | deleting a record leaves every other one reading as before |
| `Bytes.CStringWindow` | LibSmart/jni/parse_toc/KarToc.cpp:144-147 | a string of a table read through its absolute offset in the file is the same string |
| `Records.ClipListWindow` | LibSmart/jni/parse_toc/TocMerge.cpp:2223-2229 | a clip list of a table read through its absolute offset is the same list, if it ends inside the table or the table ends the file |
| `Records.FlagsKeptIff` | LibSmart/jni/parse_toc/KarToc.cpp:695-707 | the byte read as a stored song's flags, bDelete among them, is its own exactly when its bit 7 is set, or if the first byte stored next happens to equal it: otherwise it is not copied |
| `RecordBytes.MarkedDeleteIff` | LibSmart/jni/parse_toc/KarToc.h:494-503 | of the eight flags packed into the byte behind the counted clips, bDelete, the fifth from the low end, alone marks a deletion; bNewTocFormat, the eighth, alone takes the byte along |
| `RecordBytes.ExtraBytes` | LibSmart/jni/parse_toc/KarToc.h:494-503 | every byte is the eight flags of some song |
| `TocTable.MarksIff` | LibSmart/jni/parse_toc/TocMerge.cpp:1732-1751 | a song of the update is marked exactly when the flags behind its clips have bDelete set, whatever the other seven are |
| `MergeToc.MarkedInFile` | LibSmart/jni/parse_toc/KarToc.cpp:695-707 | the same in the update file: song i by the byte its record's last field leads to |
| `TocTable.TocTable.constructor` | LibSmart/jni/parse_toc/TocMerge.cpp:1487-1652 | the arrays hold the file's tables with relative offsets, and the room set aside; all apart from each other |
| `TocTable.RebaseArtistTable` | LibSmart/jni/parse_toc/TocMerge.cpp:1533-1536 | the loop moves both offsets of every artist record, in 32 bits |
| `TocTable.RebaseSongTable` | LibSmart/jni/parse_toc/TocMerge.cpp:1579-1587 | the loop moves the offsets of every song record, in 32 bits, and spares the no-clips mark |
| `TocTable.TocTable.FindSingerIndex` | LibSmart/jni/parse_toc/TocMerge.cpp:2147-2166 | the first position from start on before whose name the new name sorts |
| `TocTable.TocTable.FindSongIndex` | LibSmart/jni/parse_toc/TocMerge.cpp:2168-2186 | the first position from start on before whose name the new name sorts |
| `TocTable.TocTable.StoreArtist` | LibSmart/jni/parse_toc/TocMerge.cpp:2127-2143 | the record goes in at the place, its strings to the ends of the pools, its counts as singer and as author each added to itself; the rest of the tables is unchanged |
| `TocTable.TocTable.StoreArtistPast` | LibSmart/jni/parse_toc/TocMerge.cpp:883-914 | asked for the end of the table, the add path writes the record one place further, and the table takes in the cell between, zeroed or left over |
| `TocTable.TocTable.ShiftAllSongs` | LibSmart/jni/parse_toc/TocMerge.cpp:1690-1712 | every live slot at or above the place moves up by one, in place |
| `TocTable.TocTable.AddRoles` | LibSmart/jni/parse_toc/TocMerge.cpp:1665-1671 | the record found gains the roles of the update's artist and changes in nothing else |
| `TocTable.TocTable.MergeOneSinger` | LibSmart/jni/parse_toc/TocMerge.cpp:1661-1712 | one round on the arrays is one round on the index they hold |
| `TocTable.TocTable.MergeSingerInfo` | LibSmart/jni/parse_toc/TocMerge.cpp:1654-1716 | merge_singer_info in place on the arrays equals the artist half of the merge, within the room set aside; what that makes of each record, `ArtistOrigin.MergeArtistsMakes` says |
| `TocTable.TocTable.StoreSong` | LibSmart/jni/parse_toc/TocMerge.cpp:2206-2233 | the record goes in at the place, strings and clip bytes to the ends of the pools; the rest is unchanged |
| `TocTable.TocTable.DoInsertSong` | LibSmart/jni/parse_toc/TocMerge.cpp:2188-2255 | one song of the update is inserted where the resumed search says, record and bytes exactly; the whole table reads with it exactly under the condition on lists; a song without clips gets the first list of the pool |
| `TocTable.TocTable.DoDeleteSong` | LibSmart/jni/parse_toc/TocMerge.cpp:2271-2318 | the record is removed, the order of the others kept |
| `TocTable.TocTable.DeleteAllMarked` | LibSmart/jni/parse_toc/TocMerge.cpp:1727-1741 | the deletion loop on the arrays equals the deletion pass with the marks of `TocTable.MarksIff` |
| `TocTable.TocTable.RelinkedSlots` | LibSmart/jni/parse_toc/TocMerge.cpp:1776-1803 | each live slot gets the first position in the merged table with the update artist's singerIdx; an index past the update's table reads its first record |
| `TocTable.TocTable.InsertOneSong` | LibSmart/jni/parse_toc/TocMerge.cpp:1745-1803 | one round of the insertion loop, with its skips, its cursor and its pMapIndex entry, on a table whose lists may have run on |
| `TocTable.TocTable.MergeSongInfo` | LibSmart/jni/parse_toc/TocMerge.cpp:1718-1806 | merge_songInfo in place on the arrays equals deletion pass, relinking and insertion pass in everything but clip lists, and in those exactly when only the first song stored has 128 clips or more, if any, and no list left in the table runs into the end of its pool; pMapIndex holds the recorded positions |
| `TocTable.UpdateListsFitIff` | LibSmart/jni/parse_toc/TocMerge.cpp:1718-1771 | that condition is a question of the index and the update alone |
| `TocTable.TocTable.LayOut` | LibSmart/jni/parse_toc/TocMerge.cpp:2345-2371 | the header's sizes and offsets are those of the tables written one after the other |
| `TocTable.TocTable.PrepareWriteFile` | LibSmart/jni/parse_toc/TocMerge.cpp:2320-2392 | versions of the kind taken over, header laid out, every offset counted from the start of the file |
| `TocTable.TocTable.WriteFile` | LibSmart/jni/parse_toc/TocMerge.cpp:2438-2517 | the bytes on disk are the masked concatenation of header, records and pools |
| `RecordBytes.ArtistRoundTrip` | LibSmart/jni/parse_toc/KarToc.h:341-372 | artist records and groups of five words correspond one to one |
| `RecordBytes.SongRoundTrip` | LibSmart/jni/parse_toc/KarToc.h:428-487 | song records and groups of fourteen words correspond one to one, every bit-field kept |
| `RecordBytes.HeaderRoundTrip` | LibSmart/jni/parse_toc/KarToc.h:262-320 | a header written is read back, field by field |
| `RecordBytes.SongTableAt` | LibSmart/jni/parse_toc/KarToc.cpp:726-750 | a table of song records found in a file gives back every record by index |
| `RecordBytes.ArtistTableAt` | LibSmart/jni/parse_toc/KarToc.cpp:656-673 | a table of artist records found in a file gives back every record by index |
| `RecordBytes.HeaderFields` | LibSmart/jni/parse_toc/KarToc.h:262-320 | the header of a file field by field, at its byte offset, low byte first |
| `RecordBytes.ArtistFields` | LibSmart/jni/parse_toc/KarToc.h:341-372 | an artist record's fields by byte and bit |
| `RecordBytes.SongFields` | LibSmart/jni/parse_toc/KarToc.h:428-487 | a song record's fields by byte and bit, its eight slots one after the other |
| `TocFile.ParsesIff` | LibSmart/jni/parse_toc/KarToc.cpp:250-260 | a file is taken for an index exactly when it has 104 bytes and begins, masked, with EE D6 DE A7 |
| `TocFile.NewerIff` | LibSmart/jni/parse_toc/KarToc.cpp:364-382 | for each kind with its own two header fields: an update is newer exactly when its version is larger, or equal with a larger revision, unless a revision of 100 and more counts into the version; updates from YouTube never are |
| `MergeToc.MergesIff` | LibSmart/jni/parse_toc/TocMerge.cpp:1389-1404 | merge_toc goes on to merge exactly when both files begin as an index does and the update's release, read from the four bytes of its kind, is the later one in that sense |
| `TocFile.HeadersAgree` | LibSmart/jni/parse_toc/KarToc.cpp:169-346 | reading and unmasking the header alone gives the same answer, error or header, as reading the whole file: once the first check passes, the second cannot fail |
| `TocFile.TakenIsNotNewer` | LibSmart/jni/parse_toc/TocMerge.cpp:2325-2341 | an index that took an update has the update's two fields of the kind and its own six others; the update is not newer than it, and any other is exactly when it is newer than the update |
| `TocFile.WrittenInFile` | LibSmart/jni/parse_toc/TocMerge.cpp:2345-2391 | file_len is the number of bytes written, and every table lies where the header says |
| `TocFile.LaidOut` | LibSmart/jni/parse_toc/TocMerge.cpp:2345-2391 | header, artists, songs, artist names, song names, song pinyin, artist pinyin, mkv names and clip lists follow each other without a gap, and the header gives each one's place and size |
| `TocFile.WrittenReloads` | LibSmart/jni/parse_toc/TocMerge.cpp:1527-1592 | loading a written index for a merge gives back exactly the tables that were laid out: rebasing is undone |
| `TocFile.FileReads` | LibSmart/jni/parse_toc/KarToc.cpp:144-147 | a loaded index read in place through absolute offsets says the same as its tables taken apart |
| `TocFile.SavedReads` | LibSmart/jni/parse_toc/TocMerge.cpp:2320-2517 | lay out, mask, write, load: every name, pinyin, artist and clip list reads as it did in memory, and the tables come back for the next merge |
| `IndexMask.MaskInverts` | LibSmart/jni/parse_toc/KarToc.cpp:752-784 | masking and unmasking from position 0 undo each other, on every file |
| `IndexMask.TwistFlips` | LibSmart/jni/parse_toc/KarToc.cpp:752-784 | steps 0, 1, 3, 4, 5 and 6 flip exactly the bits CF, D8, 60, F0, 87 and FF of any byte, in both directions |
| `IndexMask.TwistAdds` | LibSmart/jni/parse_toc/KarToc.cpp:752-784 | step 2 adds 32 and step 7 takes 32 away modulo 256 when masking, the other way round when unmasking |
| `IndexMask.ZerosMasked` | LibSmart/jni/parse_toc/KarToc.cpp:921-955 | what a zero byte becomes at every position, key and step together |
| `IndexMask.UnmaskStreams` | LibSmart/jni/parse_toc/KarToc.cpp:921-955 | however a file is cut into chunks, unmasking them in turn with the running position equals one pass over the whole |
| `IndexMask.PositionWraps` | LibSmart/jni/parse_toc/KarToc.cpp:945-953 | the 32-bit wrap of the stream position changes no byte |
| `IndexMask.Masker.MaskBytes` | LibSmart/jni/parse_toc/KarToc.cpp:921-955 | exactly the bytes from offset on are masked or unmasked in place; only unmasking moves the stream position; what that does to a byte, `IndexMask.TwistFlips` and `IndexMask.TwistAdds` say |
| `MergeToc.MergeFiles` | LibSmart/jni/parse_toc/TocMerge.cpp:1405-1444 | after the version check: the file written holds the merge of what the two files held, in everything but clip lists, and in those exactly under the condition on lists; it has the update's release of the kind and its own others, so the same update is not newer than it |
| `MergeToc.MergeToc` | LibSmart/jni/parse_toc/TocMerge.cpp:1348-1461 | all outcomes of merge_toc: copy of the update, -3, copy of the main index, or an index holding the merge in that sense, with the update's release of the kind, which the same update would leave alone; `MergeToc.MergesIff` says from the bytes when it merges |
| `MergeToc.MergedKeeps` | LibSmart/jni/parse_toc/TocMerge.cpp:1405-1444 | what the merge says: undeleted songs in order with their artists, all others the accepted update songs linked to the singers they named, the counts, all slots in the table, distinct codes kept distinct |
| `MergeToc.MergedArtists` | LibSmart/jni/parse_toc/TocMerge.cpp:1654-1716 | the artists of the merged file, record by record: origin, order, roles, counts |
| `AddArtist.IndexesRightIff` | LibSmart/jni/parse_toc/TocMerge.cpp:815-848 | after insert_artist every artist of the request knows its record exactly when no new one has to go to the end of the table; stale insertIndex values do no harm |
| `AddArtist.EndInsertionMisses` | LibSmart/jni/parse_toc/TocMerge.cpp:883-885 | the smallest case that goes wrong: the record lands one place past the table |
| `AddArtist.EmptyTableFills` | LibSmart/jni/parse_toc/TocMerge.cpp:815-885 | in an empty table every artist of language below 3 goes one place too far: the table ends up as what the array held, and insertIndex i leads to place i + 1 |
| `AddArtist.AddedSingersDistinctIff` | LibSmart/jni/parse_toc/TocMerge.cpp:893-901 | new artists all get singerIdx 0: the numbers later merges find artists by stay distinct exactly when the request has at most one new artist, and none if the table has a 0 already |
| `AddArtist.AddArtistsFollows` | LibSmart/jni/parse_toc/TocMerge.cpp:850-869 | whatever is added, songs already there keep their artists |
| `AddArtist.RoundFits` | LibSmart/jni/parse_toc/TocMerge.cpp:509-516 | the array prepare_insert_song makes holds every record insert_artist writes, one place too far or not, if the last artist of the request goes inside the table or some artist of it is found |
| `ArtistOrder.AddArtistsSorted` | LibSmart/jni/parse_toc/TocMerge.cpp:883-891 | under that condition a sorted artist table stays sorted under a request in order; here entry 0 may be displaced |
| `Weave.AddArtistsWeave` | LibSmart/jni/parse_toc/TocMerge.cpp:815-891 | under that condition, for any table, request and comparison, sorted or not: the names of the table are one walk with the new names, each in front of the first one met that sorts behind it, and first met by the next |
| `ArtistOrigin.AddArtistsMakes` | LibSmart/jni/parse_toc/TocMerge.cpp:815-901 | under that condition every record afterwards is an old one, changed in nothing but roles asked for by its name, or made of the first artist of a new name: language, word count, type, pinyin and reserved bits as given, the roles of all its namesakes, its counts twice, singerIdx 0 |
| `AddSong.PutSongsKeeps` | LibSmart/jni/parse_toc/TocMerge.cpp:714-799 | songs whose code the request does not name stay as they are, in order |
| `AddSong.PutSongsLandIff` | LibSmart/jni/parse_toc/TocMerge.cpp:663-712 | every song of any request, codes repeated or not, has a record with its code, copied whole if it was stored, and that record names the song's artists exactly when whichever later song of its code wrote a slot last named the same artist in it |
| `AddSong.PutSongsLand` | LibSmart/jni/parse_toc/TocMerge.cpp:686-709 | when no later song of language below 3 has its code, a song ends up with its own artists |
| `AddSong.PutSongsLandCanFail` | LibSmart/jni/parse_toc/TocMerge.cpp:686-735 | two songs of one code: the second is found where the first is, and its singer replaces the first one's |
| `AddSong.StoredIff` | LibSmart/jni/parse_toc/TocMerge.cpp:722-735 | a song is found instead of stored exactly when its language is below 3 and the table or an earlier song of the request has its code: otherwise nothing looks |
| `AddSong.RoomSuffices` | LibSmart/jni/parse_toc/TocMerge.cpp:592-647 | for any request the room prepare_insert_song sets aside is never exceeded, and used up exactly when no song of it is found instead of stored |
| `AddSong.AddedLikeMerged` | LibSmart/jni/parse_toc/TocMerge.cpp:672-684 | if the request is all new, its songs are placed and recorded as merge_songInfo would place them: in the walk of `Weave.InsertPassWeaves` |
| `AddSong.FoundResumes` | LibSmart/jni/parse_toc/TocMerge.cpp:672-684 | a song of language below 3 that is found moves the cursor to the record found, changing no code, name or order |
| `AddSong.SearchResumes` | LibSmart/jni/parse_toc/TocMerge.cpp:737-740 | a new one goes behind the cursor, in front of the first song there that sorts behind it |
| `AddSong.StoredSlots` | LibSmart/jni/parse_toc/TocMerge.cpp:686-709 | of a song stored, the slots whose artist has the role get its insertIndex in 16 bits; the others keep the request's number |
| `AddToToc.DoInsertArtistInfo` | LibSmart/jni/parse_toc/TocMerge.cpp:876-916 | inside the table the record is inserted at the upper bound from the position asked for, every field of it as `ArtistOrigin.AddArtistsMakes` says; at its end it is written one place too far, and the table ends with what the array held there |
| `AddToToc.InsertArtist` | LibSmart/jni/parse_toc/TocMerge.cpp:801-874 | insert_artist in place equals the specified run on both branches, and every artist of the request knows its record exactly when none has to go to the end of the table |
| `AddToToc.DoInsertSongInfo` | LibSmart/jni/parse_toc/TocMerge.cpp:714-799 | found, or inserted after the resumed search, with the exact growth of each pool; what is stored reads back exactly when its clip list does not go on from the one before |
| `AddToToc.PatchedSlots` | LibSmart/jni/parse_toc/TocMerge.cpp:686-709 | each live slot whose artist has the role is overwritten by that artist's insertIndex in 16 bits |
| `AddToToc.InsertSong` | LibSmart/jni/parse_toc/TocMerge.cpp:663-712 | insert_song in place equals the specified run in everything but clip lists, and in those exactly under the condition on lists; each pool grows by exactly the strings stored |
| `AddToIndex.Measure` | LibSmart/jni/parse_toc/TocMerge.cpp:526-533 | the sizing loops add up every string of the request and reset every insertIndex |
| `AddToIndex.Fill` | LibSmart/jni/parse_toc/TocMerge.cpp:325-347 | insert_artist and insert_song for one index, whatever insertIndex values they come with and leave |
| `AddToIndex.InsertUpdateSong` | LibSmart/jni/parse_toc/TocMerge.cpp:240-362 | from two loaded indexes to two files: both prepared, the sub index filled first, the main index from the insertIndex values it left; each file holds its index with the request added, clip lists exactly under the condition on lists, versions unchanged; what the request adds, `AddToIndex.AddedMeans` and `AddToIndex.AddedArtists` say |
| `AddToIndex.RequestListsFitIff` | LibSmart/jni/parse_toc/TocMerge.cpp:663-799 | that condition is a question of the index and the request alone |
| `AddToIndex.AddedMeans` | LibSmart/jni/parse_toc/TocMerge.cpp:663-916 | songs not named by the request keep place, order and artists; every named song is there, with the artists it names exactly when no later song of its code wrote over them; insertIndex values from before do no harm |
| `AddToIndex.AddedArtists` | LibSmart/jni/parse_toc/TocMerge.cpp:801-901 | the artists of an index with a request added, record by record: origin, order, roles, counts; the insertIndex of a new artist leads to the record made of it, that of any other to one of its name |
| `ArtistList.ListArtists` | LibSmart/jni/SmartKaraoke.cpp:552-668 | an artist named twice, in whichever role, is listed once, in the order of first namings, with the language of its first naming, its pinyin, the roles it was named in and no others; every slot of every song leads to the entry made for it |
| `ArtistList.SaysGivesRoles` | LibSmart/jni/SmartKaraoke.cpp:600-602 | such slots meet what insert_song asks of its caller: indices in range, roles given |
| `Relabel.RelabelsIff` | LibSmart/jni/SmartKaraoke.cpp:2760-2768 | for any row ids: replacing indices by row ids artist by artist equals replacing all at once exactly when, for every slot in use, the row ids lead from its artist to that artist's row id and no further over the turns the slot takes part in; a row id that reads as 65535 ends that for the slots behind it |
| `Relabel.UncutRelabelsIff` | LibSmart/jni/SmartKaraoke.cpp:2760-2768 | if no row id reads as 65535: exactly when no used artist's row id leads on, over indices of later artists, to another row id |
| `Relabel.DistinctRelabelsIff` | LibSmart/jni/SmartKaraoke.cpp:2760-2768 | if, moreover, row ids of different artists differ: exactly when no used artist's row id is the index of a later artist |
| `Relabel.SafeRelabels` | LibSmart/jni/SmartKaraoke.cpp:2847-2855 | that condition suffices even when row ids repeat, as those of namesakes do, if none reads as 65535 |
| `Relabel.RelabelCanFail` | LibSmart/jni/SmartKaraoke.cpp:2760-2768 | row id 1 for the first artist and 7 for the second: the first one's song gets 7 |
| `Relabel.RelabelSongs` | LibSmart/jni/SmartKaraoke.cpp:2760-2768 | the nested loops do to every song what the artist-by-artist replacement says, in 16 bits |
| `Lyrics.DoInsertLyric` | LibSmart/jni/parse_toc/TocMerge.cpp:402-467 | the same records, in order, to the ends of both files; songs without text are passed over; the count is returned |
| `Lyrics.PrintIs` | LibSmart/jni/parse_toc/TocMerge.cpp:434-450 | a record byte by byte: 01, the length in eight bits, the type, the low three bytes of the id highest first, the text, 00 |
| `Lyrics.TextAtStops` | LibSmart/jni/parse_toc/KarToc.cpp:497-501 | the text read is the bytes up to the first 01, taken along, or the first 00, not taken, within the record's room |
| `Lyrics.PrintedParsesIff` | LibSmart/jni/parse_toc/TocMerge.cpp:436-450 | a record is parsed back as itself exactly when its text has at most 254 bytes and no 01 before its last |
| `Lyrics.PrintAllParses` | LibSmart/jni/parse_toc/KarToc.cpp:476-502 | a file of such records is parsed into all of them, in order |
| `Lyrics.TableIsStableSort` | LibSmart/jni/parse_toc/KarToc.cpp:504-508 | the table is sorted by id, and holds for every id the same records in file order |
| `Lyrics.StableSortUnique` | LibSmart/jni/parse_toc/KarToc.cpp:504-508 | no other table does: it is the stable sort |
| `Lyrics.LyricTable.IndexOf` | LibSmart/jni/parse_toc/KarToc.cpp:393-406 | on a table sorted by id, the first position with a larger id |
| `Lyrics.LyricTable.ParseLyric10Words` | LibSmart/jni/parse_toc/KarToc.cpp:474-509 | the table built equals the records put in one after the other; parsing stops at a byte that opens no record |
| `Lyrics.LyricTable.GetLyric10Word` | LibSmart/jni/parse_toc/KarToc.cpp:408-429 | for any 32-bit id, the text at the index the two-key search stops at, or none |
| `Lyrics.ParsedLooksUp` | LibSmart/jni/parse_toc/KarToc.cpp:408-429 | lookup finds a record exactly when one with the id and type is there, if the file gives the types of each id in order |
| `Lyrics.ParsedLooksUpIff` | LibSmart/jni/parse_toc/KarToc.cpp:408-429 | with no id and type twice, only then |
| `Lyrics.WrittenLooksUp` | LibSmart/jni/parse_toc/TocMerge.cpp:429-459 | from request to lookup: what was written and parsed is found under its id and type, and nothing else |
| `Lyrics.WrongOrderMisses` | LibSmart/jni/parse_toc/KarToc.cpp:408-429 | two records of one song with types in the wrong order: the second is there and not found |
| `Lyrics.SameKeyMiddle` | LibSmart/jni/parse_toc/KarToc.cpp:408-429 | of records with the same id and type throughout, the middle one is answered, of two the first |
| `Base64.Encode` | LibSmart/jni/base64.c:67-125 | exact size test, exact size written, the encoding and a NUL; nothing touched on the error paths |
| `Base64.Decode` | LibSmart/jni/base64.c:130-189 | every outcome: invalid text, nothing but breaks, buffer too small with the size needed, or the decoded bytes, written within the checked bound |
| `Base64.DecodedEncoded` | LibSmart/jni/base64.c:67-189 | decoding an encoding gives the bytes back, for every length |
| `Base64.MapsFollowAlphabet` | LibSmart/jni/base64.c:36-65 | both maps follow the alphabet of table 1 of RFC 1521; '=' alone is padding, and no other character below 128 is anything |
| `Base64.GroupNumber` | LibSmart/jni/base64.c:94-119 | four characters and their three bytes are the same number of 24 bits, the first highest; each missing byte is one '=' at the end |
| `Base64.UngroupNumber` | LibSmart/jni/base64.c:174-182 | the same for any four characters decoded, and with padding the first bytes of it |
| `Base64.AcceptableIff` | LibSmart/jni/base64.c:146-153 | accepted are characters of the alphabet and behind them at most two of padding, nothing else |
| `Base64.StripKeeps` | LibSmart/jni/base64.c:139-144 | nothing but carriage returns and line feeds is looked through |
| `Base64.LoneReturn` | LibSmart/jni/base64.c:139-150 | a carriage return without its line feed spoils any text |
| `Base64.BrokenEncodingDecodes` | LibSmart/jni/base64.c:136-144 | an encoding with CR LF or LF put in anywhere decodes to the same bytes |
| `Base64.InsertBreak` | LibSmart/jni/base64.c:136-144 | putting a break into any text keeps what it decodes to, unless it parts a CR from its LF |
| `KeyedCodec.GenerateKey` | LibSmart/jni/server_url.cpp:266-285 | the four bytes of the djb2 hash of the password, low byte first, complemented |
| `KeyedCodec.HashIs` | LibSmart/jni/server_url.cpp:266-276 | the hash as one formula: the password's characters as digits in base 33 with 5381 in front, kept in 32 bits |
| `KeyedCodec.KeyIsComplement` | LibSmart/jni/server_url.cpp:257-285 | the key as a little-endian number and the hash add up to FFFFFFFF |
| `KeyedCodec.XorKeyAt` | LibSmart/jni/server_url.cpp:299-307 | byte r of every block of four is laid under byte r of the key |
| `KeyedCodec.XorBlocks` | LibSmart/jni/server_url.cpp:299-307 | the block loops lay the key over the text with period four, short last block included |
| `KeyedCodec.EncryptInternal` | LibSmart/jni/server_url.cpp:287-325 | the destination holds the encoding of the keyed text and a NUL; an empty text writes nothing; the size test cannot fail |
| `KeyedCodec.DecryptInternal` | LibSmart/jni/server_url.cpp:327-361 | every outcome of decryption, text of nothing but line breaks included |
| `KeyedCodec.EncryptedReadsBack` | LibSmart/jni/server_url.cpp:287-361 | what was encrypted is decrypted to the original bytes under the same password, for every non-empty text |
| `Utf8Title.EncodedLengthIff` | LibSmart/jni/StringUtils.cpp:260-296 | the announced length is the number of bytes written exactly when wchar_t is not two bytes wide or the character is below 0x10000 |
| `Utf8Title.CharBack` | LibSmart/jni/StringUtils.cpp:276-346 | a character written is read back with its own length, wherever it stands |
| `Utf8Title.EncodedSequence` | LibSmart/jni/StringUtils.cpp:276-296 | what is written is a sequence of section 3 of RFC 3629, the shortest of the character's value |
| `Utf8Title.CharReads` | LibSmart/jni/StringUtils.cpp:298-346 | a sequence so drawn is read with its length and value, shortest or not |
| `Utf8Title.NoSequence` | LibSmart/jni/StringUtils.cpp:298-346 | where none stands, one byte is read as a question mark |
| `Utf8Title.RoundTrip` | LibSmart/jni/StringUtils.cpp:276-325 | any sequence of characters 1 to 0x1FFFFF survives writing and reading |
| `Utf8Title.CharLengthInside` | LibSmart/jni/StringUtils.cpp:327-346 | reading never goes past the end of a string, malformed or not |
| `Utf8Title.FoldTwice` | LibSmart/jni/StringUtils.cpp:77-257 | folding a folded character changes nothing, and only zero folds to zero |
| `Utf8Title.FoldBlocks` | LibSmart/jni/StringUtils.cpp:77-257 | by the blocks of Unicode: which letters with marks become A, D, E, I, O, U and Y; the rest of ASCII becomes capital, and every other character stays |
| `Utf8Title.TitleReads` | LibSmart/jni/StringUtils.cpp:55-75 | a title read back is the string folded character by character, up to an overlong zero |
| `Utf8Title.TitleTwiceIff` | LibSmart/jni/StringUtils.cpp:55-75 | a title's title is itself exactly when the string, malformed or not, decodes to no zero |
| `Utf8Title.EncodeChar` | LibSmart/jni/StringUtils.cpp:276-296 | the bytes of the sequence, and how far the pointer moves |
| `Utf8Title.DecodeChar` | LibSmart/jni/StringUtils.cpp:298-325 | the character and the next position, looking at no byte behind the NUL |
| `Utf8Title.GetTitleRaw` | LibSmart/jni/StringUtils.cpp:55-75 | the folded characters of the whole string, written one after the other |
| `Utf16.Utf16To8` | LibSmart/jni/utf8/checked.h:207-231 | the UTF-8 of the text, or the unit that invalid_utf16 names |
| `Utf16.UnitsRead` | LibSmart/jni/utf8/checked.h:209-230 | the text of any sequence of valid characters is read as them |
| `Utf16.ReadUnits` | LibSmart/jni/utf8/checked.h:209-230 | whatever is read without complaint is the text of valid characters and of no others |
| `Utf16.ReadBad` | LibSmart/jni/utf8/checked.h:211-225 | the unit an exception names is the first out of place: everything before it is the text of valid characters |
| `Utf16.ReadBackAsUtf8` | LibSmart/jni/utf8/checked.h:73-93 | what is written of it is read back by UTF8_DecodeChar as the same characters |
| `CursorWindow.CopyRowToWindow` | LibSmart/jni/sqlite/android_database_SQLiteConnection.cpp:643-700 | a row is added whole, or the window is left as it was; a row with cells put behind the row added for it is refused |
| `CursorWindow.ExecuteForCursorWindow` | LibSmart/jni/sqlite/android_database_SQLiteConnection.cpp:741-829 | for any start, negative ones included, the window ends with the block of rows the restart rule chooses, and the result packs its start with the row count the flag asks for |
| `CursorWindow.RequiredRowIff` | LibSmart/jni/sqlite/android_database_SQLiteConnection.cpp:714-740 | in a window that takes empty whatever it takes fuller, the required row is copied exactly when it and every row from startPos to it fit an empty window |
| `CursorWindow.RequiredRowCopied` | LibSmart/jni/sqlite/android_database_SQLiteConnection.cpp:714-740 | for any capacity: if those rows fit, the block is contiguous, begins at or after startPos, holds the required row, and ends where the query ends or a row did not fit |
| `CursorWindow.NoRoomNoRow` | LibSmart/jni/sqlite/android_database_SQLiteConnection.cpp:786-815 | the first of those rows that does not fit leaves the window empty, started again for that row |
| `CursorWindow.StartForChain` | LibSmart/jni/sqlite/android_database_SQLiteConnection.cpp:789-815 | the window's start is reached block by block, each as full as can be and none past the required row |
| `CursorWindow.ReportsRows` | LibSmart/jni/sqlite/android_database_SQLiteConnection.cpp:732-739 | the start and end reported are those of the rows copied; from past the query's end none is, and the number of rows is reported |
| `CursorWindow.NegativeStart` | LibSmart/jni/sqlite/android_database_SQLiteConnection.cpp:789-815 | a negative start copies nothing if no row is required, and is as good as 0 if one is |
| `CursorWindow.CollateIff` | LibSmart/jni/sqlite/android_database_SQLiteConnection.cpp:128-140 | negative exactly if the first string precedes as in a dictionary of unsigned bytes, positive exactly if the second does |
| `CursorWindow.CollateZero` | LibSmart/jni/sqlite/android_database_SQLiteConnection.cpp:128-140 | zero exactly for equal byte strings, of any length |
| `CursorWindow.CollateAntisymmetric` | LibSmart/jni/sqlite/sqlite3.h:4493-4502 | less one way round is greater the other |
| `CursorWindow.CollateTransitive` | LibSmart/jni/sqlite/sqlite3.h:4493-4502 | less is transitive |
| `NameQuery.RunKeeps` | LibSamba/src/jcifs/UniAddress.java:120-189 | every state of every interleaving satisfies the invariant over lock, counter, results and places in the code |
| `NameQuery.NoLostWakeup` | LibSamba/src/jcifs/UniAddress.java:152-177 | no state has both threads finished and the caller asleep |
| `NameQuery.SomebodyMoves` | LibSamba/src/jcifs/UniAddress.java:161-189 | until the caller is through, somebody can take a step that is not a chance wake-up |
| `NameQuery.RunsEnd` | LibSamba/src/jcifs/UniAddress.java:175-177 | no run is longer than its chance wake-ups allow |
| `NameQuery.ResultIsRight` | LibSamba/src/jcifs/UniAddress.java:180-188 | an answer is one of the queries' own; an exception means both failed, and is null exactly when q1x was ended by an Error |
| `NameQuery.AnswerIsReturned` | LibSamba/src/jcifs/UniAddress.java:158-189 | if a query has an answer and nobody interrupts, an answer is returned |
| `NameQuery.FirstPreferred` | LibSamba/src/jcifs/UniAddress.java:182-184 | once q1x has its answer, that one is returned, whichever query was faster, unless the caller had already found q1x without one or is interrupted |
| `NameQuery.ReasonIsTaken` | LibSamba/src/jcifs/UniAddress.java:175-178 | an answer there when the caller comes to look for it, or a counter run out, is not waited past |

## Left out

- VIDEO entries and their mkv names: an entry without a name aliases the next one appended. No song is taken to be VIDEO.
- `Kok_CmpUTF8Str` and its helpers: a parameter here. Nothing is said about its fixed buffers or its scan loops.
- Running out of memory, failing reads and writes, and what `copy_file` does for a file that is not there: a file is a byte string that is read and written whole.
- Strings of an update or request of 65535 bytes and more, whose lengths do not fit the source's uint16_t; clip lists of 65536 bytes and more.
- Tables whose counts together reach 65535 artists or 65536 songs, and files of 4 GB: counts and offsets would wrap.
- TocTable.TocTable.MergeSongInfo: asks that every update song has a clip list and a byte behind its counted part: `getSongInfoExtra` follows the offset, out of the file if it is missing, before anything else happens.
- MergeToc.MergeToc: asks the same, and that the update's tables are as large as its strings one by one: if songs share strings so that they are smaller, the source writes past the room it set aside.
- MergeToc.MergeFiles: the same.
- MergeToc.MergedKeeps: the same.
- TocTable.TocTable.StoreSong: after a song without a clip list has been stored beside an empty clip pool, its record leads nowhere, and nothing is said of reading the table.
- TocTable.TocTable.DoInsertSong: the same.
- Padding bytes of the header are written as zeros here; the source copies what it read.
- `merge_toc_update`, which merges into a second index, the lyric file merge, and the media copy after the position check in `merge_song_megvol_mid`: input and output.
- pMapIndex entries of skipped update songs: never written by the source, and arbitrary here; `PositionMap.VolumeCheck` counts them as wrong.
- AddToToc.DoInsertArtistInfo: asks that the array holds the record it writes; at the end of a full array the source writes past it.
- AddToToc.InsertArtist: asks the same of a whole request, by a condition that `AddArtist.RoundFits` shows to be enough.
- AddToIndex.InsertUpdateSong: asks the same for both indexes, and takes them as loaded: how the files are found and what happens when the sub index is missing are not modelled.
- AddArtist.AddedSingersDistinctIff: for requests without an artist for the end of the table, because the record a misplaced one leaves behind is whatever the array held.
- Relabel.DistinctRelabelsIff: for row ids none of which reads as 65535; `Relabel.RelabelsIff` covers the others.
- Relabel.UncutRelabelsIff: the same.
- Relabel.SafeRelabels: the same.
- SortedMerge.InsertPassMergesIff: asks that the searched songs come in the order of their names, as an update file has them; so do `ArtistOrder.ArtistsSortedIff`, `PositionMap.PositionsHoldIff` and what is built on them. `Weave.InsertPassWeaves` covers every order.
- IndexMask.MaskInverts: for the disk key of the source; the file-dependent password of `PasswordMaskBytes` and `PasswordMaskBytesMp3` is not modelled.
- Base64.Encode: sizes are unbounded numbers; the overflow of `slen << 3` in a size_t is not modelled.
- Lyrics.LyricTable.ParseLyric10Words: asks that no record it reaches is cut off by the end of the file; the source reads on past its buffer there.
- Lyrics.DoInsertLyric: asks that each record fits its 512-byte buffer, as the source needs and does not check.
- Utf8Title.GetTitleRaw: `toupper` is that of the C locale, and wchar_t has four bytes; `getPinyin` is a parameter where it is used.
- Utf16.Utf16To8: what was already written when the exception is thrown is not modelled. `next`, `prior`, `replace_invalid` and `utf8to16` are not part of this model.
- CursorWindow.ExecuteForCursorWindow: the class behind the JNI calls is not part of this model; its refusals are arbitrary functions of its contents, and it refuses a value for a row it does not have.
- NameQuery.RunKeeps: shared fields are read and written in one order seen by all threads, although `ans` and `uhe` are not volatile; `NbtAddress.getByName` is taken to return or throw at some time.
- ArtistList.ListArtists: artists are values; the source keeps pointers into a growing vector.
- `containSongID` and `isDotQuadIP`: they would only add easy members.
- JNI field access, SQL, logging, directory scans and renames.
