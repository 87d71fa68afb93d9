# A paging text reader, modelled in Dafny

The reader shows a text file one page at a time in a small window. Its logic has three parts, and this project models each of them.

- **The reading window** (`readwindow.py`):
  - `readText` resets the reading position when the file changes, then tries a fixed list of encodings in order.
  - `subText` builds one page from a character offset (the *mark*). Runs of line breaks collapse to one. A line wraps after `lineSize` characters, and the page stops after `textLine` lines.
  - `rollPage` pages forward and back. It keeps the start marks of the last `pageSize` pages in a ring of slots, and page `p` lives in slot `p % pageSize`.
  - `getChapter` replays the paging from offset 0 and indexes the lines that look like chapter headings.
  - `jumpToChapter` rebuilds the ring up to the page of a heading.
- **The file cache** (`filecache.py`) copies source files into backing files in a private directory:
  - the cache is a bounded map from source path to backing file;
  - an insertion-order list evicts first-in, first-out;
  - the copy is a chunked read/write loop.
- **The text view** (`textcontent.py`) asks the cache for the file's text. On a miss it caches the file and asks again. It then inserts the text into its document in chunks, each cut after the last line break of its window.

The modules follow that structure:

- `Pagination` holds the page computation of `subText` as a pure function, and what it guarantees.
- `Chapters` holds the heading pattern, line splitting and stripping, and the chapter index.
- `Reader` holds the settings object, with the ring as an array. It also holds `readText` and the `ReadWindow` class: its methods update the settings in place and are proved against `Pagination`.
- `Cache` holds the cache on values (`CacheState`) and the `FileCache` class, whose methods are proved equal to it. The file system is an object (`Disk`) with a map of files and a set of directories.
- `TextView` holds the chunk loader and the `TextContent` class.
- `Wrappers` holds `Option` and `Result`.

The ring's correctness is the ghost predicate `ReadWindow.Coherent`: every slot of the last `pageSize` pages holds the start mark that sequential paging from offset 0 gives that page (`Pagination.StartOf`). The cache's correctness is `FileCache.Faithful`:

- the order list and the map hold the same keys, without repeats and within capacity;
- every live entry has a backing file of its own, holding the text the entry was cached with.

## Model

| member | source | states |
|---|---|---|
| Pagination.ScanBounds | readwindow.py:133-157 | the page scan never moves the mark back or past the end of the text; a scan started at or past the end returns what it has with the mark unchanged; the page text extends what was built before |
| Pagination.PageFromBounds | readwindow.py:133-157 | from a mark at or past the end, subText returns empty text and the same mark; otherwise the returned mark lies between the given mark and the end of the text |
| Pagination.ScanStall | readwindow.py:143-146 | the mark stays where it is only when it stands on a line break that is the last character of the text, and that line break is emitted |
| Pagination.PageProgress | readwindow.py:133-157 | a page longer than one character starts inside the text and moves the mark strictly forward, so getChapter's loop ends |
| Pagination.ScanEmits | readwindow.py:133-157 | while the line budget is not used up and a character is left to scan, the scan emits at least one more character |
| Pagination.PageNonempty | readwindow.py:133-157 | with at least one line per page, a page is empty exactly when its mark is at or past the end of the text (the empty page rollPage refuses) |
| Pagination.ScanLineWidth | readwindow.py:147-153 | the wrap counter keeps every line built by the scan within lineSize characters |
| Pagination.PageLineWidth | readwindow.py:147-153 | no line of a page holds more than lineSize characters |
| Pagination.ScanLineBudget | readwindow.py:136-156 | the scan emits at most textLine line breaks; when it stops before the end of the text it has emitted exactly textLine, the last of them being the final character emitted |
| Pagination.PageLineBudget | readwindow.py:136-156 | a page has at most textLine line breaks; a page that stops before the end of the text holds exactly textLine of them and ends with the last one, so nothing follows the textLine-th line break |
| Pagination.ScanContent | readwindow.py:133-157 | apart from line breaks, the scan emits exactly the characters it passes over, in order |
| Pagination.PageContent | readwindow.py:133-157 | apart from line breaks, the page is exactly the stretch of text from its mark to the returned mark |
| Pagination.ConsumeVisible | readwindow.py:136-153 | apart from line breaks, consuming one character emits exactly that character |
| Pagination.ConsumeWidth | readwindow.py:147-153 | one step keeps the column counter equal to the length of the current line and below lineSize, and every line within lineSize |
| Pagination.ConsumeLines | readwindow.py:136-153 | one step keeps the line counter equal to the number of line breaks emitted, and adds at most one line |
| Pagination.DoubleNewlineDropped | readwindow.py:136-142 | a line break followed by another one is consumed without output: paging from it equals paging from the next character |
| Pagination.FinalNewlineRepeats | readwindow.py:143-146 | from a final line break, subText returns that line break and leaves the mark on it, so calling again yields the same page |
| Pagination.StartOfBounds | readwindow.py:160-171 | the start marks of sequential pages never decrease and never pass the end of the text |
| Pagination.VisibleAppend | readwindow.py:133-157 | the characters other than line breaks of a concatenation are those of its parts, in order |
| Chapters.HeadingShape | readwindow.py:313 | every line the heading pattern accepts starts with 第 and has between 3 and 29 characters |
| Chapters.HeadingSplitNotUnique | readwindow.py:313 | 章 and 节 are themselves word characters of the pattern, so a line can match with more than one length of the word run |
| Chapters.HeadingExamples | readwindow.py:313 | the pattern accepts "第12章 开端" and "第三\|"; it rejects "第章", a word run of eight characters, and a tail of 21 characters after the mark |
| Chapters.HasHeadingIsHeading | readwindow.py:318-319 | only lines the pattern accepts are counted as headings of a page |
| Chapters.AddHeadingsSpec | readwindow.py:316-320 | after one page's lines are processed, the map holds the earlier keys plus this page's headings; each heading of the page maps to this page; every other key keeps its page |
| Chapters.IndexFromSpec | readwindow.py:315-322 | from any page of a sequential reading, the rest of the loop yields a sound index that holds every heading of every page it scans, at that page or a later one |
| Chapters.ChapterIndexSpec | readwindow.py:308-323 | getChapter's map holds exactly the headings of the pages it scans (those before the first page of at most one character); each maps to a page that holds it, and no later scanned page holds it |
| Reader.FirstDecodingSpec | readwindow.py:19-30 | the first encoding that does not fail to decode decides: its text, or the error it raises; when every encoding fails to decode, the "no encoding" error is raised |
| Reader.ReadText | readwindow.py:11-30 | a new path resets the current page, the last page and a zeroed ring; the same path keeps them; the result is that of the encoding trial in the code's order |
| Reader.ModDistinct | readwindow.py:165-175 | pages fewer than pageSize apart use different ring slots |
| Reader.RingWrite | readwindow.py:169 | storing page i's start mark in slot i % pageSize extends the ring's coherent window by one page |
| Reader.ReadWindow.SubText | readwindow.py:129-157 | the loop returns exactly the page that sequential paging defines from the mark (Pagination.PageFrom), with the properties proved about it |
| Reader.ReadWindow.RollPage | readwindow.py:160-178 | a negative page gives None and changes nothing. A forward roll with an empty page gives None and changes nothing. Otherwise a forward roll sets the current page, adds one to the last page and writes only slot (page + 1) % pageSize. A backward roll within pageSize pages shows the page in its slot, changes only the current page and keeps the ring. A backward roll further back gives None. A coherent ring stays coherent, and the page shown is the one sequential paging computes for that number |
| Reader.ReadWindow.ShowCurrentPage | readwindow.py:38 | rolls to the current page and shows the roll's text, or None when the roll is refused; the current page stays. From the last page on, the page is computed from the current page's slot: an empty page changes nothing else; otherwise the last page grows by one and the next slot receives the page's end mark. Before the last page, the ring and the last page are kept and the page is shown only while it is fewer than pageSize pages back. On a coherent ring the ring stays coherent and the page is the current page as sequential paging computes it |
| Reader.ReadWindow.UpdateTextLayout | readwindow.py:390-395 | equal sizes change nothing. A changed width or line count is stored, and the current page is rolled again under the new layout, from the mark its slot holds: the shown text, the last page and the ring are what that roll gives, with the current page unchanged |
| Reader.ReadWindow.GetChapter | readwindow.py:308-323 | the loop returns ChapterIndex of the text under the current layout and writes no settings field |
| Reader.ReadWindow.ReplayTo | readwindow.py:330-334 | the replay returns page target's text; the ring holds the start marks of pages (target + 1 - pageSize, target + 1]; higher slots are untouched |
| Reader.ReadWindow.StoreStart | readwindow.py:332-334 | storing page i's start mark in slot i % pageSize moves the ring's coherent window up to page i and leaves every higher slot alone |
| Reader.ReadWindow.JumpToChapter | readwindow.py:325-336 | as written: current page and last page both become the heading's page, the page shown is that page, and the ring holds pages up to one past it |
| Reader.ReadWindow.JumpToChapterFixed | readwindow.py:325-336 | with the last page set to the heading's page + 1, the ring is coherent after the jump and the page shown is the heading's page |
| Reader.RevisitAfterSequentialPaging | readwindow.py:160-176 | after forward rolls of pages 0..n-1 from a reset, rolling back to any page p with n - pageSize < p < n (the last page rolled to and the pageSize - 2 pages before it, which the ring still serves) shows that page exactly as sequential paging computed it |
| Reader.JumpThenBackAsWritten | readwindow.py:329 | with a two-slot ring, jumping to page 1 of "abc" and rolling back to page 0 shows page 2 ("c\n"), while page 0 is "a\n" |
| Reader.JumpThenBackFixed | readwindow.py:329 | with the corrected jump, the same scenario shows page 1 again and refuses page 0, which has left the ring |
| Cache.Decimal | filecache.py:56 | the decimal notation has at least one digit, and at least two from 10 on |
| Cache.DecimalInjective | filecache.py:56 | different numbers have different decimal notations |
| Cache.BackingNameInjective | filecache.py:55-56 | in one directory, backing files with different numbers have different names |
| Cache.FlattenCons | filecache.py:61-65 | joining the pieces written is compatible with writing a first piece before the rest |
| Cache.CopyFromSpec | filecache.py:57-65 | a completed copy wrote the whole source; an interrupted copy wrote a prefix of it; without a failing read the copy completes; a failing first read writes nothing |
| Cache.CopyChunks | filecache.py:57-65 | the copy loop writes what the copy function defines, as the concatenation of its pieces; every piece is nonempty and at most 8192 characters; a completed copy wrote exactly the source |
| Cache.DropOldestValid | filecache.py:46-48 | removing the front of the order list and its key keeps the list and the map in agreement, without repeats |
| Cache.EvictSpec | filecache.py:46-52 | eviction raises only when the cache is at a capacity of 0 or less. Afterwards the cache is below capacity and still valid. An eviction removes exactly the oldest entry, the front of the order list, and keeps every other mapping |
| Cache.EvictKeepsLater | filecache.py:46-52 | at capacity, eviction leaves capacity - 1 entries and keeps every entry but the oldest with its backing file; only the oldest entry's backing file leaves the disk |
| Cache.StoreCopyValid | filecache.py:57-70 | the copy step keeps the order list and the map in agreement and within capacity |
| Cache.StoreCopySpec | filecache.py:55-70 | when the source or the cache directory is missing, nothing changes. Otherwise only the backing file changes on disk. The index is either unchanged or gains exactly the new path, appended at the end and mapped to the backing file, which holds the source's text. Without a failing read the entry is added; a failing first read adds nothing |
| Cache.InsertValid | filecache.py:36-70 | cache_file keeps the order list holding exactly the map's keys, without repeats and within capacity, whether or not the copy succeeds |
| Cache.InsertOrder | filecache.py:46-68 | for a new path, at capacity the front of the order list is dropped (FIFO); the new path is appended at the end exactly when it enters the map; a failed copy keeps the eviction |
| Cache.InsertNaming | filecache.py:55-67 | the new entry's backing file is numbered by the count of entries after eviction, and every other entry keeps its backing file |
| Cache.InsertOutcome | filecache.py:57-70 | a failing first read adds no entry; a readable source that is not itself a backing file is added when no read fails |
| Cache.InsertIdempotent | filecache.py:42-43 | caching a path that is already cached changes nothing |
| Cache.NameCollision | filecache.py:55-56 | as written: at capacity, the new entry receives the backing file of the live entry numbered capacity - 1, so both share one file and a lookup of the older path returns the new file's text |
| Cache.CollisionAsWritten | filecache.py:55-56 | capacity 2, paths "a", "b", "c" cached in turn: a lookup of "b" returns "bbb" before the third call and "ccc" after it |
| Cache.FixedAgreesBeforeEviction | filecache.py:55-56 | until the first eviction, numbering from a counter gives the same names as numbering from the entry count |
| Cache.InsertFixedOutcome | filecache.py:57-70 | with the corrected naming, a readable source that is not a backing file is added when no read fails |
| Cache.FaithfulLookup | filecache.py:18-34 | when every entry has its own intact backing file, get_cached_content returns the recorded text for a cached path and None for any other |
| Cache.EvictFaithful | filecache.py:46-52 | eviction leaves every remaining entry's backing file intact |
| Cache.FreshName | filecache.py:55-56 | a backing file numbered by a never-reused counter belongs to no live entry |
| Cache.StoreFaithful | filecache.py:55-70 | copying into a fresh backing file disturbs no live entry |
| Cache.InsertFixedFaithful | filecache.py:36-70 | with the corrected naming, cache_file keeps the index valid and every entry's backing file intact; a newly cached path reads back its source's text |
| Cache.CollisionFixed | filecache.py:55-56 | the same three calls with the corrected naming: "b" reads back "bbb" and "c" reads back "ccc" |
| Cache.ClearSpec | filecache.py:72-84 | clear_cache empties the map and the order list, removes every backing file and no other file, and removes the cache directory exactly when no file or subdirectory is left in it, as `os.rmdir` does; every other directory stays; a second call changes nothing |
| Cache.FileCache.constructor | filecache.py:7-16 | the cache starts empty, with the given capacity, in the new directory mkdtemp creates |
| Cache.FileCache.GetCachedContent | filecache.py:18-34 | returns the backing file's text for a cached path, and None for a path not in the map or a backing file that is missing; on a faithful cache, the text the path was cached with |
| Cache.FileCache.EvictOldest | filecache.py:45-52 | the eviction step on the object is the eviction on values; the IndexError leaves everything as it was |
| Cache.FileCache.CopyIn | filecache.py:55-70 | the copy step on the object is the copy step on values |
| Cache.FileCache.CacheFile | filecache.py:36-70 | as written: the new state is cache_file on values (Insert), with its IndexError reported; the index stays valid |
| Cache.FileCache.CacheFileFixed | filecache.py:36-70 | with counter naming: the new state is the corrected cache_file on values, and every live entry reads back the text it was cached with |
| Cache.FileCache.RemoveBackingFiles | filecache.py:74-78 | the loop removes exactly the backing files of the map from disk |
| Cache.FileCache.ClearCache | filecache.py:72-84 | the new state is clear_cache on values, and the cache remains faithful |
| TextView.LastNewline | textcontent.py:68 | the index of the last line break, or -1 when there is none |
| TextView.NextChunk | textcontent.py:62-75 | each round moves start strictly forward and not past the end, and inserts exactly the text between the old and the new start |
| TextView.NextChunkSpec | textcontent.py:62-75 | a chunk is nonempty and at most chunk_size long. A chunk that is not the last ends at the last line break of its window, or fills a window with no line break. A window reaching the end of the text finishes the loop |
| TextView.ChunksStep | textcontent.py:62-78 | one round of the loop moves one chunk from the pieces to come to the pieces inserted |
| TextView.ChunksJoin | textcontent.py:60-78 | the chunks, joined in order, are the whole text from start on |
| TextView.ChunksShape | textcontent.py:62-75 | every chunk inserted is nonempty and at most chunk_size long, and every one but the last ends with a line break or fills its window |
| TextView.ChunksShort | textcontent.py:62-75 | text no longer than the window goes in as one chunk, and empty text inserts no chunk |
| TextView.LookupOrCacheSpec | textcontent.py:34-39 | initText's cache step is cache_file as written, whether the lookup hits or misses; with the capacity of 5 it never raises and the index stays valid; a hit leaves the cache alone; a missing file or a failing first read leaves the file without text; a readable file outside the cache directory, with no failing read, is read back as its own text |
| TextView.TextContent.constructor | textcontent.py:8-12 | a new view owns a fresh cache of capacity 5 in mkdtemp's new directory; its cache is what cache_file as written makes of that empty cache, which is also what the corrected naming makes of it; it shows the file's text when the file is readable, lies outside the cache directory and no read fails, and the "cannot read" notice when the file is missing or its first read fails |
| TextView.TextContent.ChunkRound | textcontent.py:63-75 | one round of the loop computes the chunk and the next start that NextChunk defines |
| TextView.TextContent.LoadTextInChunks | textcontent.py:49-88 | the document ends up holding exactly the text, inserted as the chunks Chunks defines, whose properties ChunksJoin and ChunksShape state |
| TextView.TextContent.InitText | textcontent.py:14-47 | the new cache is cache_file as written applied to the old one (it is called only on a miss, and does nothing for a cached path); the document shows the text the cache then yields when it is nonempty (`if content:`), and the "cannot read" notice when there is no text or only empty text |

## Left out

- Qt widget code is not modelled: painting, window geometry, mouse, resize, drag and native events, shortcuts, the scrollable chapter menu and the font metrics. The same goes for the document clearing and styling in `textcontent.py`, `QApplication.processEvents` and the debug output.
- `app.py` is not part of this model. It composes the UI and picks a start file from settings and a history list that the modelled files do not define.
- The settings store (`settingdata`, with `readData`/`writeData`) is not part of this model. `Reader.Settings` holds only the fields the paging code uses.
- Real file I/O is abstracted:
  - In `readText`, what opening the file with each encoding does is the parameter `attempt`: a text, a decoding or lookup error, or another error.
  - In the cache, the file system is the `Disk` object, and `mkdtemp`'s new directory is the `tempDir` parameter.
  - A source read that raises is the `failAt` parameter, the number of the read that fails.
- Cache.StoreCopy: write errors and open errors other than a missing file or directory are not modelled.
- Cache.Lookup: a backing file that exists but fails to decode returns None in the code; the model only returns None for a missing file.
- `FileCache.__del__` is not modelled: the finalizer runs `clear_cache` at a time the language does not fix. `ClearCache` models `clear_cache` itself.
- Reader.ReadWindow.GetChapter returns a map: the order of the dict's keys is not modelled. That order is the order in which headings first appear in the text, and the chapter menu lists them in it (readwindow.py:406-407); a later repeat of a heading moves its page but not its place.
- Chapters.SplitLines splits on '\n' only. Python's `splitlines` also splits on '\v', '\f', '\x1c' to '\x1e', '\x85', U+2028 and U+2029, which reading in text mode does not fold away. All of them are whitespace to `str.strip`, so one at the start or end of a '\n'-line changes nothing. Where one stands between other characters of a '\n'-line, the model sees one line where getChapter sees several: it can miss a heading getChapter finds (text before the separator), or record it under a longer key (text after it).
- Chapters.IsHeading states the pattern for a single stripped line without line breaks, the only input getChapter gives it. It is not a regular-expression engine.
- Reader.ReadWindow.UpdateTextLayout takes the new line width and line count as parameters, each at least 1. The pixel arithmetic that computes them from the window and font sizes (`max(1, int(width / charWidth))`) is left out.
- Reader.ReadWindow.RollPage requires `pageSize >= 1` (`Settings.Valid`). With an empty ring, the code's `page % pageSize` raises ZeroDivisionError, and the model does not reproduce that.
- Reader.ReadWindow.SubText takes a mark of type nat. Every mark the code stores starts at 0 and only grows, so negative marks do not occur.
- The `ReadWindow` constructor only stores the text. Its calls to `readText` and `rollPage` (readwindow.py:37-38) are the separate `ReadText` and `ShowCurrentPage`.
- Reader.ReadText tries the code's six encodings in order: utf-8, Windows-1252, ANSI, gbk, ISO-8859-1 and big5. Whether the platform knows an encoding named ANSI is part of the `attempt` abstraction (a LookupError is `Undecodable`).
- A forward roll to a page past the last page reads that page's slot whether or not it was ever written (readwindow.py:165). `RollPage` models this, and its contract names the slot the page is computed from; only its coherence clause is limited to pages up to the last page.
- TextView.TextContent.LoadTextInChunks requires `chunkSize >= 1`. With a chunk size of 0 the code's loop never advances and never ends. Its only caller passes 5000.
- TextView.TextContent.InitText does not promise that a hit shows the text the file was cached with: it uses cache_file as written, whose naming does not keep each entry's own file (see Findings). A view calls initText once, on its fresh cache, where no eviction has happened and both namings give the same cache (`TextContent.constructor`).
- Characters are Dafny `char` values. Decoding bytes into text is part of the `attempt` abstraction.

## Findings

| source | as written | input that shows it | evidently intended | confidence | as-written member | corrected member |
|---|---|---|---|---|---|---|
| readwindow.py:329 | `jumpToChapter` sets `lastPage = page`, but the replay also writes the start mark of page + 1 into slot (page + 1) % pageSize, which is how the ring looks after a forward roll of `page` | pageSize 2, lineSize 1, textLine 1, text "abc": jump to a heading on page 1, then roll to page 0; it shows "c\n" (page 2), while page 0 is "a\n" | `lastPage = page + 1`, as a forward roll of `page` leaves it, so the ring stays coherent and a backward roll shows the page it names or is refused | not executed | Reader.JumpThenBackAsWritten | Reader.ReadWindow.JumpToChapterFixed |
| filecache.py:55-56 | the backing file is named `cache_<number of entries after eviction>`; once an eviction has happened, that name can belong to a live entry | capacity 2; cache "a", "b", "c" in turn: "c" is copied into `cache_1`, the backing file of "b", so `get_cached_content("b")` returns the text of "c" | every live entry has its own backing file, for example one numbered from a counter that is never reused | not executed | Cache.CollisionAsWritten | Cache.InsertFixedFaithful |
