/** The text view of textcontent.py: the document is filled from the file
    cache (look up, and on a miss cache the file and look up again), then
    inserted in chunks that are cut after the last line break of each
    window. */
module TextView {
  import opened Wrappers
  import opened Cache

  /** Default window size of loadTextInChunks. */
  const DefaultChunkSize: nat := 5000

  /** What the view shows when the cache yields no text. */
  const Unreadable: seq<char> := "无法读取文件内容"

  /** `str.rfind('\n')`: the index of the last line break, or -1. */
  function LastNewline(s: seq<char>): (r: int)
    ensures -1 <= r < |s|
    ensures r >= 0 ==> s[r] == '\n' && forall i :: r < i < |s| ==> s[i] != '\n'
    ensures r == -1 ==> forall i :: 0 <= i < |s| ==> s[i] != '\n'
  {
    if |s| == 0 then -1
    else if s[|s| - 1] == '\n' then |s| - 1
    else LastNewline(s[..|s| - 1])
  }

  /** One round of the loop of loadTextInChunks from `start`: the chunk it
      inserts and where the next round starts. */
  function NextChunk(content: seq<char>, start: nat, chunkSize: nat): (r: (seq<char>, nat))
    requires start < |content| && chunkSize >= 1
    ensures start < r.1 <= |content| && r.0 == content[start..r.1]
  {
    var chunk := content[start..Min(start + chunkSize, |content|)];
    if start + chunkSize < |content| then
      var lastNewline := LastNewline(chunk);
      if lastNewline != -1 then
        assert chunk[..lastNewline + 1] == content[start..start + lastNewline + 1];
        (chunk[..lastNewline + 1], start + lastNewline + 1)
      else (chunk, start + chunkSize)
    else (chunk, start + |chunk|)
  }

  /** The chunks loadTextInChunks inserts from `start` on. */
  function Chunks(content: seq<char>, chunkSize: nat, start: nat): seq<seq<char>>
    requires start <= |content| && chunkSize >= 1
    decreases |content| - start
  {
    if start == |content| then []
    else
      var (chunk, next) := NextChunk(content, start, chunkSize);
      [chunk] + Chunks(content, chunkSize, next)
  }

  lemma ChunksStep(content: seq<char>, chunkSize: nat, start: nat, chunk: seq<char>, next: nat, pieces: seq<seq<char>>)
    requires start < |content| && chunkSize >= 1 && NextChunk(content, start, chunkSize) == (chunk, next)
    ensures pieces + Chunks(content, chunkSize, start) == (pieces + [chunk]) + Chunks(content, chunkSize, next)
  {
    assert Chunks(content, chunkSize, start) == [chunk] + Chunks(content, chunkSize, next);
  }

  /** A chunk is never empty and never longer than the window; a chunk that
      is not the last ends at the last line break of its window, or, when
      the window holds none, fills the window. */
  lemma NextChunkSpec(content: seq<char>, start: nat, chunkSize: nat)
    requires start < |content| && chunkSize >= 1
    ensures var (chunk, next) := NextChunk(content, start, chunkSize);
      0 < |chunk| <= chunkSize &&
      (next < |content| ==> start + chunkSize < |content|) &&
      (start + chunkSize >= |content| ==> next == |content|) &&
      (next < |content| && chunk[|chunk| - 1] != '\n' ==>
         |chunk| == chunkSize && forall i :: start <= i < start + chunkSize ==> content[i] != '\n') &&
      (next < |content| && chunk[|chunk| - 1] == '\n' ==>
         forall i :: next <= i < start + chunkSize ==> content[i] != '\n')
  {
    var window := content[start..Min(start + chunkSize, |content|)];
    if start + chunkSize < |content| {
      var lastNewline := LastNewline(window);
      forall i | start <= i < start + chunkSize && (lastNewline == -1 || start + lastNewline < i)
        ensures content[i] != '\n'
      {
        assert content[i] == window[i - start];
      }
    }
  }

  /** The chunks, joined, are the text from `start` on: nothing is lost,
      repeated or reordered. */
  lemma {:induction false} ChunksJoin(content: seq<char>, chunkSize: nat, start: nat)
    requires start <= |content| && chunkSize >= 1
    ensures Flatten(Chunks(content, chunkSize, start)) == content[start..]
    decreases |content| - start
  {
    if start < |content| {
      var (chunk, next) := NextChunk(content, start, chunkSize);
      ChunksJoin(content, chunkSize, next);
      FlattenCons(chunk, Chunks(content, chunkSize, next));
      assert content[start..] == content[start..next] + content[next..];
    }
  }

  /** No chunk is empty or longer than the window, and each but the last
      ends with a line break or fills the window. */
  ghost predicate WellCut(cs: seq<seq<char>>, chunkSize: nat)
  {
    (forall j :: 0 <= j < |cs| ==> 0 < |cs[j]| <= chunkSize) &&
    (forall j :: 0 <= j < |cs| - 1 ==> cs[j][|cs[j]| - 1] == '\n' || |cs[j]| == chunkSize)
  }

  /** Every chunk obeys NextChunkSpec. */
  lemma {:induction false} ChunksShape(content: seq<char>, chunkSize: nat, start: nat)
    requires start <= |content| && chunkSize >= 1
    ensures WellCut(Chunks(content, chunkSize, start), chunkSize)
    decreases |content| - start
  {
    if start < |content| {
      var (chunk, next) := NextChunk(content, start, chunkSize);
      NextChunkSpec(content, start, chunkSize);
      ChunksShape(content, chunkSize, next);
      var rest := Chunks(content, chunkSize, next);
      var cs := [chunk] + rest;
      assert Chunks(content, chunkSize, start) == cs;
      forall j | 0 <= j < |cs|
        ensures 0 < |cs[j]| <= chunkSize
        ensures j < |cs| - 1 ==> cs[j][|cs[j]| - 1] == '\n' || |cs[j]| == chunkSize
      {
        if j > 0 {
          assert cs[j] == rest[j - 1];
        } else if j < |cs| - 1 {
          assert next < |content|;
        }
      }
    }
  }

  /** With a window at least as long as the text, the text goes in as one
      chunk; empty text inserts nothing. */
  lemma ChunksShort(content: seq<char>, chunkSize: nat)
    requires chunkSize >= 1 && |content| <= chunkSize
    ensures Chunks(content, chunkSize, 0) == if |content| == 0 then [] else [content]
  {
    if |content| > 0 {
      assert content[0..Min(chunkSize, |content|)] == content;
      assert Chunks(content, chunkSize, |content|) == [];
    }
  }

  /** The shown text for what the cache yielded: `if content:` in initText. */
  function Shown(content: Option<seq<char>>): seq<char>
  {
    if content.Some? && |content.value| > 0 then content.value else Unreadable
  }

  /** Backing files lie in the cache directory. */
  lemma BackingInDir(dir: Path, n: nat)
    ensures InDir(BackingName(dir, n), dir)
  {
    assert BackingName(dir, n)[..|dir| + 1] == dir + "/";
  }

  /** The cache step of initText. cache_file runs only on a miss, and on a hit
      it would return at once, so the new cache is cache_file's in every case.
      With a capacity of 5 it never raises and keeps the index valid. A hit
      leaves the cache alone. A missing file, or a failing first read, leaves
      the file unreadable. A readable file outside the cache directory is read
      back as its own text when no read fails. */
  lemma LookupOrCacheSpec(st: CacheState, dir: Path, fileName: Path, failAt: Option<nat>)
    requires ValidState(st, DefaultCacheSize)
    ensures Insert(st, DefaultCacheSize, dir, fileName, failAt).Some?
    ensures var r := Insert(st, DefaultCacheSize, dir, fileName, failAt).value;
      ValidState(r, DefaultCacheSize) &&
      (fileName in st.cacheFiles ==> r == st) &&
      (fileName !in st.cacheFiles && (fileName !in st.files || failAt == Some(0)) ==> Lookup(r, fileName) == None) &&
      (fileName !in st.cacheFiles && failAt.None? && fileName in st.files && fileName !in st.cacheFiles.Values &&
       !InDir(fileName, dir) && dir in st.dirs ==>
         Lookup(r, fileName) == Some(st.files[fileName]))
  {
    EvictSpec(st, DefaultCacheSize);
    InsertValid(st, DefaultCacheSize, dir, fileName, failAt);
    if fileName !in st.cacheFiles {
      var st1 := Evict(st, DefaultCacheSize).value;
      var name := BackingName(dir, |st1.cacheFiles|);
      BackingInDir(dir, |st1.cacheFiles|);
      StoreCopySpec(st1, dir, fileName, name, failAt);
      InsertOutcome(st, DefaultCacheSize, dir, fileName, failAt);
      var r := StoreCopy(st1, dir, fileName, name, failAt);
      assert Insert(st, DefaultCacheSize, dir, fileName, failAt).value == r;
      assert fileName !in st1.cacheFiles;
      if failAt.None? && fileName in st.files && fileName !in st.cacheFiles.Values && !InDir(fileName, dir) && dir in st.dirs {
        if |st.cacheFiles| >= DefaultCacheSize {
          assert fileName != st.cacheFiles[st.cacheOrder[0]];
        }
        assert fileName in st1.files && st1.files[fileName] == st.files[fileName];
        assert fileName != name;
        assert r.cacheFiles[fileName] == name;
      }
    }
  }

  class TextContent {
    const fileCache: FileCache
    /** The text of the view's document. */
    var document: seq<char>
    /** The chunks the last loadTextInChunks inserted. */
    ghost var pieces: seq<seq<char>>

    /** The view owns a cache of the default capacity. */
    ghost predicate Valid()
      reads this, fileCache
    {
      fileCache.Valid() && fileCache.maxCacheSize == DefaultCacheSize
    }

    /** `__init__`: a fresh cache in the directory mkdtemp creates, then
        initText. The view shows the file's text when the file is readable,
        and the notice when it is missing or its first read fails. */
    constructor (fileName: Path, fs: Disk, tempDir: Path, failAt: Option<nat>)
      requires tempDir !in fs.dirs
      modifies fs
      ensures Valid() && fresh(fileCache)
      ensures var st := CacheState(map[], [], old(fs.files), old(fs.dirs) + {tempDir});
        var r := Insert(st, DefaultCacheSize, tempDir, fileName, failAt);
        r.Some? && fileCache.State(fs) == r.value &&
        r == InsertFixed(st, DefaultCacheSize, tempDir, 0, fileName, failAt)
      ensures document == Shown(Lookup(fileCache.State(fs), fileName))
      ensures failAt.None? && fileName in old(fs.files) && !InDir(fileName, tempDir) ==>
        document == Shown(Some(old(fs.files)[fileName]))
      ensures fileName !in old(fs.files) || failAt == Some(0) ==> document == Unreadable
    {
      fileCache := new FileCache(DefaultCacheSize, fs, tempDir);
      document := [];
      new;
      ghost var st := fileCache.State(fs);
      LookupOrCacheSpec(st, tempDir, fileName, failAt);
      FixedAgreesBeforeEviction(st, DefaultCacheSize, tempDir, fileName, failAt);
      InitText(fileName, fs, failAt);
    }

    /** One round of the loop of loadTextInChunks: cut the window after its
        last line break unless it reaches the end of the text. */
    static method ChunkRound(content: seq<char>, start: nat, chunkSize: nat) returns (chunk: seq<char>, next: nat)
      requires start < |content| && chunkSize >= 1
      ensures (chunk, next) == NextChunk(content, start, chunkSize)
    {
      next := start;
      chunk := content[next..Min(next + chunkSize, |content|)];
      if next + chunkSize < |content| {
        var lastNewline := LastNewline(chunk);
        if lastNewline != -1 {
          chunk := chunk[..lastNewline + 1];
          next := next + lastNewline + 1;
        } else {
          next := next + chunkSize;
        }
      } else {
        next := next + |chunk|;
      }
    }

    /** loadTextInChunks: the document ends up holding the whole text, put
        in as the chunks Chunks describes. */
    method LoadTextInChunks(content: seq<char>, chunkSize: nat)
      requires chunkSize >= 1
      modifies this
      ensures document == content
      ensures pieces == Chunks(content, chunkSize, 0)
    {
      document := [];
      pieces := [];
      var start := 0;
      while start < |content|
        invariant start <= |content|
        invariant document == content[..start]
        invariant pieces + Chunks(content, chunkSize, start) == Chunks(content, chunkSize, 0)
        decreases |content| - start
      {
        ghost var was := start;
        var chunk;
        chunk, start := ChunkRound(content, start, chunkSize);
        ChunksStep(content, chunkSize, was, chunk, start, pieces);
        assert content[..start] == content[..was] + chunk;
        document := document + chunk;
        pieces := pieces + [chunk];
      }
    }

    /** initText: look the file up in the cache; on a miss cache it and look
        it up again; show the text, or the notice when there is none. */
    method InitText(fileName: Path, fs: Disk, failAt: Option<nat>)
      requires Valid()
      modifies this, fileCache, fs
      ensures Valid() && fileCache.cacheDir == old(fileCache.cacheDir)
      ensures var r := Insert(old(fileCache.State(fs)), DefaultCacheSize, old(fileCache.cacheDir), fileName, failAt);
        r.Some? && fileCache.State(fs) == r.value
      ensures document == Shown(Lookup(fileCache.State(fs), fileName))
    {
      EvictSpec(fileCache.State(fs), DefaultCacheSize);
      var content := fileCache.GetCachedContent(fileName, fs);
      if content.None? {
        var raised := fileCache.CacheFile(fileName, fs, failAt);
        content := fileCache.GetCachedContent(fileName, fs);
      }
      if content.Some? && |content.value| > 0 {
        LoadTextInChunks(content.value, DefaultChunkSize);
      } else {
        document := Unreadable;
      }
    }
  }
}
