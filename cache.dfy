/** The source-file cache of filecache.py: a bounded map from a source path to
    a backing file in a private directory, with a parallel insertion-order list
    and first-in-first-out eviction. The file system is an object of its own. */
module Cache {
  import opened Wrappers

  type Path = seq<char>

  /** Size of each read of the chunked copy (8 KB). */
  const ChunkSize: nat := 8192

  /** The part of the file system the cache touches: text files by path and
      directories. */
  class Disk {
    var files: map<Path, seq<char>>
    var dirs: set<Path>

    constructor (files: map<Path, seq<char>>, dirs: set<Path>)
      ensures this.files == files && this.dirs == dirs
    {
      this.files := files;
      this.dirs := dirs;
    }
  }

  // ---------------------------------------------------------------------------
  // Backing file names

  function Digit(d: nat): char
    requires d < 10
  {
    "0123456789"[d]
  }

  /** Decimal notation of n, as an f-string writes it. */
  function Decimal(n: nat): (r: seq<char>)
    ensures |r| >= 1 && (n >= 10 ==> |r| >= 2)
  {
    if n < 10 then [Digit(n)] else Decimal(n / 10) + [Digit(n % 10)]
  }

  /** Distinct numbers have distinct decimal notations. */
  lemma {:induction false} DecimalInjective(a: nat, b: nat)
    requires Decimal(a) == Decimal(b)
    ensures a == b
  {
    if a >= 10 && b >= 10 {
      var da, db := Decimal(a), Decimal(b);
      assert Digit(a % 10) == da[|da| - 1] == db[|db| - 1] == Digit(b % 10);
      assert da[..|da| - 1] == Decimal(a / 10);
      assert db[..|db| - 1] == Decimal(b / 10);
      DecimalInjective(a / 10, b / 10);
    } else if a < 10 && b < 10 {
      assert Digit(a) == Decimal(a)[0];
    }
  }

  /** `os.path.join(cache_dir, f'cache_{n}')`. */
  function BackingName(dir: Path, n: nat): Path
  {
    dir + "/cache_" + Decimal(n)
  }

  /** Distinct numbers give distinct backing names in the same directory. */
  lemma BackingNameInjective(dir: Path, a: nat, b: nat)
    requires BackingName(dir, a) == BackingName(dir, b)
    ensures a == b
  {
    var p := dir + "/cache_";
    assert BackingName(dir, a)[|p|..] == Decimal(a);
    assert BackingName(dir, b)[|p|..] == Decimal(b);
    DecimalInjective(a, b);
  }

  /** A file lies directly or indirectly under directory d. */
  predicate InDir(f: Path, d: Path)
  {
    |f| > |d| && f[..|d| + 1] == d + "/"
  }

  // ---------------------------------------------------------------------------
  // The chunked copy

  function Flatten(pieces: seq<seq<char>>): seq<char>
  {
    if |pieces| == 0 then [] else Flatten(pieces[..|pieces| - 1]) + pieces[|pieces| - 1]
  }

  lemma {:induction false} FlattenCons(p: seq<char>, rest: seq<seq<char>>)
    ensures Flatten([p] + rest) == p + Flatten(rest)
    decreases |rest|
  {
    if |rest| > 0 {
      var init := rest[..|rest| - 1];
      assert ([p] + rest)[..|rest|] == [p] + init;
      FlattenCons(p, init);
    }
  }

  function Min(a: int, b: int): int
  {
    if a <= b then a else b
  }

  datatype Copied = Copied(written: seq<char>, done: bool)

  /** The copy loop from offset pos, where the next read is numbered k: the
      read numbered failAt raises, an empty read ends the copy. */
  function CopyFrom(src: seq<char>, pos: nat, k: nat, failAt: Option<nat>): Copied
    requires pos <= |src|
    decreases |src| - pos
  {
    if failAt == Some(k) then Copied(src[..pos], false)
    else if pos == |src| then Copied(src, true)
    else CopyFrom(src, Min(pos + ChunkSize, |src|), k + 1, failAt)
  }

  /** A completed copy wrote the whole source; an interrupted one wrote a
      prefix of it; without a failing read the copy completes, and a failing
      first read writes nothing. */
  lemma {:induction false} CopyFromSpec(src: seq<char>, pos: nat, k: nat, failAt: Option<nat>)
    requires pos <= |src| && (failAt.Some? ==> failAt.value >= k)
    ensures var c := CopyFrom(src, pos, k, failAt);
      (c.done ==> c.written == src) &&
      (!c.done ==> failAt.Some? && pos <= |c.written| <= |src| && c.written == src[..|c.written|]) &&
      (failAt.None? ==> c.done) &&
      (failAt == Some(k) ==> c == Copied(src[..pos], false))
    decreases |src| - pos
  {
    if failAt != Some(k) && pos < |src| {
      CopyFromSpec(src, Min(pos + ChunkSize, |src|), k + 1, failAt);
    }
  }

  /** The `while True` loop of cache_file: read up to 8192 characters, stop on
      an empty read, write what was read. `failAt` is the number of the read
      that raises a decoding error, if any. Returns the text written and the
      pieces it was written in; `done` is false when a read raised. */
  method CopyChunks(src: seq<char>, failAt: Option<nat>)
    returns (written: seq<char>, pieces: seq<seq<char>>, done: bool)
    ensures Copied(written, done) == CopyFrom(src, 0, 0, failAt)
    ensures written == Flatten(pieces)
    ensures forall j :: 0 <= j < |pieces| ==> 0 < |pieces[j]| <= ChunkSize
    ensures done ==> written == src
  {
    written, pieces := [], [];
    var pos := 0;
    while true
      invariant pos <= |src| && CopyFrom(src, pos, |pieces|, failAt) == CopyFrom(src, 0, 0, failAt)
      invariant written == src[..pos] && written == Flatten(pieces)
      invariant forall j :: 0 <= j < |pieces| ==> 0 < |pieces[j]| <= ChunkSize
      decreases |src| - pos
    {
      if failAt == Some(|pieces|) {
        return written, pieces, false;
      }
      var chunk := src[pos..Min(pos + ChunkSize, |src|)];
      if |chunk| == 0 {
        assert written == src;
        return written, pieces, true;
      }
      assert src[..pos + |chunk|] == src[..pos] + chunk;
      assert (pieces + [chunk])[..|pieces|] == pieces;
      written := written + chunk;
      pieces := pieces + [chunk];
      pos := pos + |chunk|;
    }
  }

  // ---------------------------------------------------------------------------
  // The cache on values

  /** The cache's index and the part of the file system it touches. */
  datatype CacheState = CacheState(
    cacheFiles: map<Path, Path>,
    cacheOrder: seq<Path>,
    files: map<Path, seq<char>>,
    dirs: set<Path>)

  predicate NoDuplicates(s: seq<Path>)
  {
    forall i, j :: 0 <= i < j < |s| ==> s[i] != s[j]
  }

  /** The order list holds exactly the keys of the map, once each, and there
      are never more of them than the capacity allows. */
  ghost predicate ValidIndex(cacheFiles: map<Path, Path>, cacheOrder: seq<Path>, max: int)
  {
    NoDuplicates(cacheOrder) &&
    (forall p :: p in cacheFiles <==> p in cacheOrder) &&
    |cacheFiles| == |cacheOrder| &&
    |cacheOrder| <= (if max < 0 then 0 else max)
  }

  ghost predicate ValidState(st: CacheState, max: int)
  {
    ValidIndex(st.cacheFiles, st.cacheOrder, max)
  }

  /** The eviction step of cache_file: when the map is at capacity, the front
      of the order list and its backing file go. None is the IndexError of
      popping an empty list (a capacity of 0 or less). */
  function Evict(st: CacheState, max: int): Option<CacheState>
    requires ValidState(st, max)
  {
    if |st.cacheFiles| < max then Some(st)
    else if |st.cacheOrder| == 0 then None
    else
      var oldest := st.cacheOrder[0];
      Some(CacheState(st.cacheFiles - {oldest}, st.cacheOrder[1..],
                      st.files - {st.cacheFiles[oldest]}, st.dirs))
  }

  /** The copy step of cache_file into backing file `name`: nothing happens
      when the source or the cache directory is missing; otherwise the backing
      file is truncated, the source is copied, and only a completed copy is
      recorded. A partial copy stays on disk. */
  function StoreCopy(st: CacheState, dir: Path, filePath: Path, name: Path, failAt: Option<nat>): CacheState
  {
    if filePath !in st.files || dir !in st.dirs then st
    else
      var truncated := st.files[name := []];
      var c := CopyFrom(truncated[filePath], 0, 0, failAt);
      var files := truncated[name := c.written];
      if c.done then CacheState(st.cacheFiles[filePath := name], st.cacheOrder + [filePath], files, st.dirs)
      else st.(files := files)
  }

  /** cache_file as written: the backing file is named after the number of
      entries left once the eviction is done. */
  function Insert(st: CacheState, max: int, dir: Path, filePath: Path, failAt: Option<nat>): Option<CacheState>
    requires ValidState(st, max)
  {
    if filePath in st.cacheFiles then Some(st)
    else match Evict(st, max)
      case None => None
      case Some(st1) => Some(StoreCopy(st1, dir, filePath, BackingName(dir, |st1.cacheFiles|), failAt))
  }

  /** cache_file with backing files named from a counter that is never reused. */
  function InsertFixed(st: CacheState, max: int, dir: Path, serial: nat, filePath: Path, failAt: Option<nat>): Option<CacheState>
    requires ValidState(st, max)
  {
    if filePath in st.cacheFiles then Some(st)
    else match Evict(st, max)
      case None => None
      case Some(st1) => Some(StoreCopy(st1, dir, filePath, BackingName(dir, serial), failAt))
  }

  /** get_cached_content: the backing file's text for a cached path, None
      for a path not in the map or a backing file that cannot be read. */
  function Lookup(st: CacheState, filePath: Path): Option<seq<char>>
  {
    if filePath in st.cacheFiles && st.cacheFiles[filePath] in st.files
    then Some(st.files[st.cacheFiles[filePath]])
    else None
  }

  /** `os.rmdir` succeeds only on an existing directory that holds neither a
      file nor a subdirectory. */
  predicate Removable(files: map<Path, seq<char>>, dirs: set<Path>, dir: Path)
  {
    dir in dirs && (forall f :: f in files ==> !InDir(f, dir)) && (forall d :: d in dirs ==> !InDir(d, dir))
  }

  /** clear_cache: remove every backing file, then the directory if it is
      now empty, and empty both the map and the order list. */
  function ClearState(st: CacheState, dir: Path): CacheState
  {
    var files := st.files - st.cacheFiles.Values;
    var dirs := if Removable(files, st.dirs, dir) then st.dirs - {dir} else st.dirs;
    CacheState(map[], [], files, dirs)
  }

  // ---------------------------------------------------------------------------
  // Properties of the cache on values

  /** Dropping the front of the order list and its key keeps the two in
      agreement. */
  lemma DropOldestValid(st: CacheState, max: int)
    requires ValidState(st, max) && |st.cacheOrder| > 0
    ensures var oldest := st.cacheOrder[0];
      var files := st.cacheFiles - {oldest};
      var order := st.cacheOrder[1..];
      NoDuplicates(order) && oldest !in files && oldest !in order &&
      (forall p :: p in files <==> p in order) && |files| == |order|
  {
    var oldest := st.cacheOrder[0];
    var files := st.cacheFiles - {oldest};
    var order := st.cacheOrder[1..];
    assert files.Keys == st.cacheFiles.Keys - {oldest};
    forall p ensures p in files <==> p in order {
      if p in order {
        var i :| 0 <= i < |order| && order[i] == p;
        assert st.cacheOrder[i + 1] == p;
      }
      if p in st.cacheOrder && p != oldest {
        var i :| 0 <= i < |st.cacheOrder| && st.cacheOrder[i] == p;
        assert order[i - 1] == p;
      }
    }
  }

  /** Eviction raises only when the capacity is 0 or less; when it happens
      it removes exactly the oldest entry and leaves the rest mapped as
      before. */
  lemma EvictSpec(st: CacheState, max: int)
    requires ValidState(st, max)
    ensures Evict(st, max).None? <==> |st.cacheFiles| >= max && max <= 0
    ensures Evict(st, max).Some? ==> ValidState(Evict(st, max).value, max)
    ensures Evict(st, max).Some? ==> |Evict(st, max).value.cacheFiles| < max
    ensures Evict(st, max).Some? && |st.cacheFiles| >= max ==>
      var st1 := Evict(st, max).value;
      st1.cacheOrder == st.cacheOrder[1..] && st.cacheOrder[0] !in st1.cacheFiles &&
      |st1.cacheFiles| == |st.cacheFiles| - 1 &&
      (forall p :: p in st1.cacheFiles ==> p in st.cacheFiles && st1.cacheFiles[p] == st.cacheFiles[p])
  {
    if |st.cacheFiles| >= max && |st.cacheOrder| > 0 {
      DropOldestValid(st, max);
    }
  }

  /** cache_file keeps the order list and the map in agreement and within the
      capacity, whether or not the copy succeeds. */
  lemma StoreCopyValid(st: CacheState, max: int, dir: Path, filePath: Path, name: Path, failAt: Option<nat>)
    requires ValidState(st, max) && filePath !in st.cacheFiles && |st.cacheFiles| < max
    ensures ValidState(StoreCopy(st, dir, filePath, name, failAt), max)
  {
    var st' := StoreCopy(st, dir, filePath, name, failAt);
    if st'.cacheFiles != st.cacheFiles {
      assert st'.cacheOrder == st.cacheOrder + [filePath];
      assert filePath !in st.cacheOrder;
    }
  }

  lemma InsertValid(st: CacheState, max: int, dir: Path, filePath: Path, failAt: Option<nat>)
    requires ValidState(st, max)
    ensures Insert(st, max, dir, filePath, failAt).Some? ==> ValidState(Insert(st, max, dir, filePath, failAt).value, max)
  {
    EvictSpec(st, max);
    if filePath !in st.cacheFiles && Evict(st, max).Some? {
      var st1 := Evict(st, max).value;
      assert ValidState(st1, max);
      StoreCopyValid(st1, max, dir, filePath, BackingName(dir, |st1.cacheFiles|), failAt);
    }
  }

  /** The copy step either leaves the index alone or adds exactly the new
      entry, which then holds the source's text; it touches no file but the
      backing one. */
  lemma StoreCopySpec(st: CacheState, dir: Path, filePath: Path, name: Path, failAt: Option<nat>)
    ensures var r := StoreCopy(st, dir, filePath, name, failAt);
      var ok := filePath in st.files && dir in st.dirs;
      r.dirs == st.dirs &&
      (!ok ==> r == st) &&
      (ok ==> r.files.Keys == st.files.Keys + {name} &&
              forall f :: f in st.files && f != name ==> r.files[f] == st.files[f]) &&
      ((r.cacheFiles == st.cacheFiles && r.cacheOrder == st.cacheOrder) ||
       (ok && r.cacheFiles == st.cacheFiles[filePath := name] && r.cacheOrder == st.cacheOrder + [filePath] &&
        r.files[name] == (if filePath == name then [] else st.files[filePath]))) &&
      (ok && failAt.None? ==> r.cacheOrder == st.cacheOrder + [filePath]) &&
      (failAt == Some(0) ==> r.cacheOrder == st.cacheOrder)
  {
    if filePath in st.files && dir in st.dirs {
      CopyFromSpec(st.files[name := []][filePath], 0, 0, failAt);
    }
  }

  /** cache_file as written, for a path not yet cached: FIFO eviction of the
      oldest entry at capacity, and the new entry appended to the order list
      exactly when it is added to the map. */
  lemma InsertOrder(st: CacheState, max: int, dir: Path, filePath: Path, failAt: Option<nat>)
    requires ValidState(st, max) && filePath !in st.cacheFiles
    requires Insert(st, max, dir, filePath, failAt).Some?
    ensures var r := Insert(st, max, dir, filePath, failAt).value;
      var kept := if |st.cacheFiles| >= max then st.cacheOrder[1..] else st.cacheOrder;
      (r.cacheOrder == kept || r.cacheOrder == kept + [filePath]) &&
      (filePath in r.cacheFiles <==> r.cacheOrder == kept + [filePath])
  {
    EvictSpec(st, max);
    var st1 := Evict(st, max).value;
    StoreCopySpec(st1, dir, filePath, BackingName(dir, |st1.cacheFiles|), failAt);
    assert filePath !in st1.cacheOrder;
  }

  /** The new entry's backing file is numbered by the entries kept, and
      every other entry keeps its backing file. */
  lemma InsertNaming(st: CacheState, max: int, dir: Path, filePath: Path, failAt: Option<nat>)
    requires ValidState(st, max) && filePath !in st.cacheFiles
    requires Insert(st, max, dir, filePath, failAt).Some?
    ensures var r := Insert(st, max, dir, filePath, failAt).value;
      filePath in r.cacheFiles ==>
        r.cacheFiles[filePath] == BackingName(dir, if |st.cacheFiles| >= max then |st.cacheFiles| - 1 else |st.cacheFiles|)
    ensures var r := Insert(st, max, dir, filePath, failAt).value;
      forall p :: p in r.cacheFiles && p != filePath ==> p in st.cacheFiles && r.cacheFiles[p] == st.cacheFiles[p]
  {
    EvictSpec(st, max);
    var st1 := Evict(st, max).value;
    var name := BackingName(dir, |st1.cacheFiles|);
    assert |st1.cacheFiles| == if |st.cacheFiles| >= max then |st.cacheFiles| - 1 else |st.cacheFiles|;
    StoreCopySpec(st1, dir, filePath, name, failAt);
    assert Insert(st, max, dir, filePath, failAt) == Some(StoreCopy(st1, dir, filePath, name, failAt));
  }

  /** A failing first read adds nothing, and a readable source that is not a
      backing file is always added when no read fails. */
  lemma InsertOutcome(st: CacheState, max: int, dir: Path, filePath: Path, failAt: Option<nat>)
    requires ValidState(st, max) && filePath !in st.cacheFiles
    requires Insert(st, max, dir, filePath, failAt).Some?
    ensures failAt == Some(0) ==> filePath !in Insert(st, max, dir, filePath, failAt).value.cacheFiles
    ensures failAt.None? && filePath in st.files && filePath !in st.cacheFiles.Values && dir in st.dirs ==>
      filePath in Insert(st, max, dir, filePath, failAt).value.cacheFiles
  {
    EvictSpec(st, max);
    var st1 := Evict(st, max).value;
    StoreCopySpec(st1, dir, filePath, BackingName(dir, |st1.cacheFiles|), failAt);
    assert filePath !in st1.cacheOrder;
    if |st.cacheFiles| >= max && failAt.None? && filePath in st.files && filePath !in st.cacheFiles.Values {
      assert filePath != st.cacheFiles[st.cacheOrder[0]];
    }
  }

  /** The corrected cache_file also adds a readable source that is not a
      backing file whenever no read fails. */
  lemma InsertFixedOutcome(st: CacheState, max: int, dir: Path, serial: nat, filePath: Path, failAt: Option<nat>)
    requires ValidState(st, max) && filePath !in st.cacheFiles
    requires InsertFixed(st, max, dir, serial, filePath, failAt).Some?
    ensures failAt.None? && filePath in st.files && filePath !in st.cacheFiles.Values && dir in st.dirs ==>
      filePath in InsertFixed(st, max, dir, serial, filePath, failAt).value.cacheFiles
  {
    EvictSpec(st, max);
    var st1 := Evict(st, max).value;
    StoreCopySpec(st1, dir, filePath, BackingName(dir, serial), failAt);
    if |st.cacheFiles| >= max && failAt.None? && filePath in st.files && filePath !in st.cacheFiles.Values {
      assert filePath != st.cacheFiles[st.cacheOrder[0]];
    }
  }

  /** Once a path is cached, caching it again changes nothing. */
  lemma InsertIdempotent(st: CacheState, max: int, dir: Path, filePath: Path, failAt: Option<nat>, failAt': Option<nat>)
    requires ValidState(st, max)
    requires Insert(st, max, dir, filePath, failAt).Some?
    ensures var r := Insert(st, max, dir, filePath, failAt).value;
      ValidState(r, max) &&
      (filePath in r.cacheFiles ==> Insert(r, max, dir, filePath, failAt') == Some(r))
  {
    InsertValid(st, max, dir, filePath, failAt);
  }

  /** The name collision of cache_file as written: at capacity, the name
      drawn for the new entry is the one held by the live entry numbered
      max - 1, so both entries share one backing file and a lookup of the
      older path returns the newer file's text. */
  lemma NameCollision(st: CacheState, max: int, dir: Path, filePath: Path, failAt: Option<nat>, q: Path)
    requires ValidState(st, max) && filePath !in st.cacheFiles && |st.cacheFiles| == max >= 1
    requires q in st.cacheFiles && q != st.cacheOrder[0] && st.cacheFiles[q] == BackingName(dir, max - 1)
    requires Insert(st, max, dir, filePath, failAt).Some?
    requires filePath in Insert(st, max, dir, filePath, failAt).value.cacheFiles
    ensures var r := Insert(st, max, dir, filePath, failAt).value;
      q in r.cacheFiles && r.cacheFiles[q] == r.cacheFiles[filePath] &&
      (filePath != BackingName(dir, max - 1) ==> Lookup(r, q) == Some(st.files[filePath]))
  {
    EvictKeepsLater(st, max, q);
    var st1 := Evict(st, max).value;
    var name := BackingName(dir, |st1.cacheFiles|);
    assert name == BackingName(dir, max - 1);
    StoreCopySpec(st1, dir, filePath, name, failAt);
    var r := StoreCopy(st1, dir, filePath, name, failAt);
    assert Insert(st, max, dir, filePath, failAt) == Some(r);
    assert r.cacheFiles == st1.cacheFiles[filePath := name];
    if filePath != name {
      assert st1.files[filePath] == st.files[filePath];
    }
  }

  /** At capacity, eviction keeps every entry but the oldest, with its
      backing file, and leaves capacity - 1 entries. */
  lemma EvictKeepsLater(st: CacheState, max: int, q: Path)
    requires ValidState(st, max) && |st.cacheFiles| == max >= 1
    requires q in st.cacheFiles && q != st.cacheOrder[0]
    ensures Evict(st, max).Some?
    ensures var st1 := Evict(st, max).value;
      |st1.cacheFiles| == max - 1 && q in st1.cacheFiles && st1.cacheFiles[q] == st.cacheFiles[q] &&
      st1.files == st.files - {st.cacheFiles[st.cacheOrder[0]]}
  {
    EvictSpec(st, max);
    assert q in st.cacheOrder;
  }

  /** Every live entry has its own backing file, numbered below `serial`,
      holding the text recorded for it in `snap`. */
  ghost predicate FaithfulState(st: CacheState, dir: Path, serial: nat, snap: map<Path, seq<char>>)
  {
    (forall p :: p in st.cacheFiles ==>
       p in snap && st.cacheFiles[p] in st.files && st.files[st.cacheFiles[p]] == snap[p] &&
       exists j: nat :: j < serial && st.cacheFiles[p] == BackingName(dir, j)) &&
    (forall p, q :: p in st.cacheFiles && q in st.cacheFiles && p != q ==> st.cacheFiles[p] != st.cacheFiles[q])
  }

  /** Under FaithfulState a lookup returns the recorded text. */
  lemma FaithfulLookup(st: CacheState, dir: Path, serial: nat, snap: map<Path, seq<char>>, p: Path)
    requires FaithfulState(st, dir, serial, snap)
    ensures p in st.cacheFiles ==> Lookup(st, p) == Some(snap[p])
    ensures p !in st.cacheFiles ==> Lookup(st, p) == None
  {
  }

  lemma EvictFaithful(st: CacheState, max: int, dir: Path, serial: nat, snap: map<Path, seq<char>>)
    requires ValidState(st, max) && FaithfulState(st, dir, serial, snap) && Evict(st, max).Some?
    ensures FaithfulState(Evict(st, max).value, dir, serial, snap)
  {
    EvictSpec(st, max);
  }

  lemma FreshName(st: CacheState, dir: Path, serial: nat, snap: map<Path, seq<char>>)
    requires FaithfulState(st, dir, serial, snap)
    ensures forall p :: p in st.cacheFiles ==> st.cacheFiles[p] != BackingName(dir, serial)
  {
    forall p | p in st.cacheFiles
      ensures st.cacheFiles[p] != BackingName(dir, serial)
    {
      var j: nat :| j < serial && st.cacheFiles[p] == BackingName(dir, j);
      if st.cacheFiles[p] == BackingName(dir, serial) {
        BackingNameInjective(dir, j, serial);
      }
    }
  }

  /** Copying into a backing file numbered `serial` disturbs no live entry. */
  lemma StoreFaithful(st: CacheState, dir: Path, serial: nat, snap: map<Path, seq<char>>,
                      filePath: Path, failAt: Option<nat>)
    requires FaithfulState(st, dir, serial, snap) && filePath !in st.cacheFiles
    ensures var r := StoreCopy(st, dir, filePath, BackingName(dir, serial), failAt);
      FaithfulState(r, dir, serial + 1, if filePath in r.cacheFiles then snap[filePath := r.files[r.cacheFiles[filePath]]] else snap)
  {
    var name := BackingName(dir, serial);
    FreshName(st, dir, serial, snap);
    StoreCopySpec(st, dir, filePath, name, failAt);
    var r := StoreCopy(st, dir, filePath, name, failAt);
    var snap' := if filePath in r.cacheFiles then snap[filePath := r.files[name]] else snap;
    forall p | p in r.cacheFiles
      ensures p in snap' && r.cacheFiles[p] in r.files && r.files[r.cacheFiles[p]] == snap'[p]
      ensures exists j: nat :: j < serial + 1 && r.cacheFiles[p] == BackingName(dir, j)
    {
      if p != filePath {
        var j: nat :| j < serial && st.cacheFiles[p] == BackingName(dir, j);
        assert r.cacheFiles[p] == BackingName(dir, j);
      } else {
        assert r.cacheFiles[p] == name;
      }
    }
  }

  /** The corrected cache_file keeps every entry's own backing file intact:
      the old entries still read back their recorded text, and a newly cached
      path reads back its source's text at the time it was cached. */
  lemma InsertFixedFaithful(st: CacheState, max: int, dir: Path, serial: nat, snap: map<Path, seq<char>>,
                            filePath: Path, failAt: Option<nat>)
    requires ValidState(st, max) && FaithfulState(st, dir, serial, snap) && filePath !in st.cacheFiles
    requires InsertFixed(st, max, dir, serial, filePath, failAt).Some?
    ensures var r := InsertFixed(st, max, dir, serial, filePath, failAt).value;
      ValidState(r, max) &&
      FaithfulState(r, dir, serial + 1, if filePath in r.cacheFiles then snap[filePath := r.files[r.cacheFiles[filePath]]] else snap)
    ensures var r := InsertFixed(st, max, dir, serial, filePath, failAt).value;
      filePath in r.cacheFiles && filePath != BackingName(dir, serial) ==>
        filePath in st.files && Lookup(r, filePath) == Some(st.files[filePath])
  {
    EvictSpec(st, max);
    EvictFaithful(st, max, dir, serial, snap);
    var st1 := Evict(st, max).value;
    var name := BackingName(dir, serial);
    StoreCopyValid(st1, max, dir, filePath, name, failAt);
    StoreFaithful(st1, dir, serial, snap, filePath, failAt);
    StoreCopySpec(st1, dir, filePath, name, failAt);
    var r := StoreCopy(st1, dir, filePath, name, failAt);
    if filePath in r.cacheFiles && filePath != name {
      assert st1.files[filePath] == st.files[filePath];
    }
  }

  /** clear_cache removes every backing file and nothing else, empties the
      index, and a second call changes nothing more. */
  lemma ClearSpec(st: CacheState, dir: Path)
    ensures var r := ClearState(st, dir);
      r.cacheFiles == map[] && r.cacheOrder == [] &&
      (forall b :: b in st.cacheFiles.Values ==> b !in r.files) &&
      (forall f :: f in st.files && f !in st.cacheFiles.Values ==> f in r.files && r.files[f] == st.files[f]) &&
      (dir in r.dirs <==>
         dir in st.dirs && ((exists f :: f in r.files && InDir(f, dir)) || (exists d :: d in st.dirs && InDir(d, dir)))) &&
      (forall d :: d in st.dirs && d != dir ==> d in r.dirs) &&
      ClearState(r, dir) == r
  {
    var r := ClearState(st, dir);
    assert r.files - r.cacheFiles.Values == r.files;
  }

  // ---------------------------------------------------------------------------
  // The cache object

  /** Default capacity of a FileCache. */
  const DefaultCacheSize: int := 5

  class FileCache {
    var maxCacheSize: int
    var cacheDir: Path
    var cacheFiles: map<Path, Path>
    var cacheOrder: seq<Path>
    /** The counter the corrected naming draws from; the code as written has
        no such field. */
    var nextSerial: nat
    /** The text each live entry was cached with. */
    ghost var snapshot: map<Path, seq<char>>

    function State(fs: Disk): CacheState
      reads this, fs
    {
      CacheState(cacheFiles, cacheOrder, fs.files, fs.dirs)
    }

    ghost predicate Valid()
      reads this
    {
      ValidIndex(cacheFiles, cacheOrder, maxCacheSize)
    }

    /** Valid, and every live entry reads back the text it was cached with. */
    ghost predicate Faithful(fs: Disk)
      reads this, fs
    {
      Valid() && FaithfulState(State(fs), cacheDir, nextSerial, snapshot)
    }

    /** `__init__`: `tempDir` is the fresh directory mkdtemp creates. */
    constructor (maxCacheSize: int, fs: Disk, tempDir: Path)
      requires tempDir !in fs.dirs
      modifies fs
      ensures this.maxCacheSize == maxCacheSize && cacheDir == tempDir
      ensures cacheFiles == map[] && cacheOrder == [] && nextSerial == 0
      ensures fs.dirs == old(fs.dirs) + {tempDir} && fs.files == old(fs.files)
      ensures Faithful(fs)
    {
      this.maxCacheSize := maxCacheSize;
      cacheDir := tempDir;
      cacheFiles := map[];
      cacheOrder := [];
      nextSerial := 0;
      snapshot := map[];
      fs.dirs := fs.dirs + {tempDir};
    }

    /** get_cached_content. */
    method GetCachedContent(filePath: Path, fs: Disk) returns (content: Option<seq<char>>)
      ensures content == Lookup(State(fs), filePath)
      ensures filePath !in cacheFiles ==> content == None
      ensures Faithful(fs) && filePath in cacheFiles ==> content == Some(snapshot[filePath])
    {
      if filePath in cacheFiles {
        var cachePath := cacheFiles[filePath];
        if cachePath in fs.files {
          return Some(fs.files[cachePath]);
        }
        return None;
      }
      return None;
    }

    /** The eviction at the head of cache_file; `raised` is the IndexError
        of popping an empty order list. */
    method EvictOldest(fs: Disk) returns (raised: bool)
      requires Valid()
      modifies this, fs
      ensures var e := Evict(old(State(fs)), old(maxCacheSize));
        raised == e.None? && (e.Some? ==> State(fs) == e.value)
      ensures raised ==> State(fs) == old(State(fs))
      ensures maxCacheSize == old(maxCacheSize) && cacheDir == old(cacheDir)
      ensures nextSerial == old(nextSerial) && snapshot == old(snapshot)
    {
      if |cacheFiles| >= maxCacheSize {
        if |cacheOrder| == 0 {
          return true;
        }
        var oldest := cacheOrder[0];
        cacheOrder := cacheOrder[1..];
        assert oldest in cacheFiles;
        var cachePath := cacheFiles[oldest];
        cacheFiles := cacheFiles - {oldest};
        fs.files := fs.files - {cachePath};
      }
      return false;
    }

    /** The copy at the tail of cache_file, into backing file `cachePath`. */
    method CopyIn(filePath: Path, cachePath: Path, fs: Disk, failAt: Option<nat>)
      modifies this, fs
      ensures State(fs) == StoreCopy(old(State(fs)), cacheDir, filePath, cachePath, failAt)
      ensures maxCacheSize == old(maxCacheSize) && cacheDir == old(cacheDir)
      ensures nextSerial == old(nextSerial) && snapshot == old(snapshot)
    {
      if filePath in fs.files && cacheDir in fs.dirs {
        fs.files := fs.files[cachePath := []];
        var src := fs.files[filePath];
        var written, pieces, done := CopyChunks(src, failAt);
        fs.files := fs.files[cachePath := written];
        if done {
          cacheFiles := cacheFiles[filePath := cachePath];
          cacheOrder := cacheOrder + [filePath];
        }
      }
    }

    /** cache_file as written; `raised` is the IndexError that escapes when
        the capacity is 0 or less. */
    method CacheFile(filePath: Path, fs: Disk, failAt: Option<nat>) returns (raised: bool)
      requires Valid()
      modifies this, fs
      ensures var r := Insert(old(State(fs)), old(maxCacheSize), old(cacheDir), filePath, failAt);
        raised == r.None? && (r.Some? ==> State(fs) == r.value)
      ensures raised ==> State(fs) == old(State(fs))
      ensures maxCacheSize == old(maxCacheSize) && cacheDir == old(cacheDir) && nextSerial == old(nextSerial)
      ensures Valid()
    {
      InsertValid(State(fs), maxCacheSize, cacheDir, filePath, failAt);
      if filePath in cacheFiles {
        return false;
      }
      raised := EvictOldest(fs);
      if raised {
        return;
      }
      var cachePath := BackingName(cacheDir, |cacheFiles|);
      CopyIn(filePath, cachePath, fs, failAt);
    }

    /** cache_file with backing files named from nextSerial: every live entry
        keeps reading back the text it was cached with. */
    method CacheFileFixed(filePath: Path, fs: Disk, failAt: Option<nat>) returns (raised: bool)
      requires Faithful(fs)
      modifies this, fs
      ensures var r := InsertFixed(old(State(fs)), old(maxCacheSize), old(cacheDir), old(nextSerial), filePath, failAt);
        raised == r.None? && (r.Some? ==> State(fs) == r.value)
      ensures raised ==> State(fs) == old(State(fs))
      ensures maxCacheSize == old(maxCacheSize) && cacheDir == old(cacheDir)
      ensures Faithful(fs)
      ensures filePath in old(cacheFiles) ==> snapshot == old(snapshot)
      ensures filePath !in old(cacheFiles) && filePath in cacheFiles && filePath != BackingName(cacheDir, old(nextSerial)) ==>
        snapshot == old(snapshot)[filePath := old(fs.files)[filePath]]
    {
      if filePath in cacheFiles {
        return false;
      }
      ghost var st, serial, snap := State(fs), nextSerial, snapshot;
      raised := EvictOldest(fs);
      if raised {
        return;
      }
      var cachePath := BackingName(cacheDir, nextSerial);
      CopyIn(filePath, cachePath, fs, failAt);
      ghost var r := InsertFixed(st, maxCacheSize, cacheDir, serial, filePath, failAt).value;
      assert State(fs) == r;
      InsertFixedFaithful(st, maxCacheSize, cacheDir, serial, snap, filePath, failAt);
      if filePath in cacheFiles {
        snapshot := snap[filePath := fs.files[cacheFiles[filePath]]];
      }
      nextSerial := nextSerial + 1;
      assert FaithfulState(State(fs), cacheDir, nextSerial, snapshot);
    }

    /** The first loop of clear_cache: every backing file is removed, one by
        one, in the order of the map's values. */
    method RemoveBackingFiles(fs: Disk)
      requires Valid()
      modifies fs
      ensures fs.files == old(fs.files) - cacheFiles.Values && fs.dirs == old(fs.dirs)
    {
      ghost var removed: set<Path> := {};
      var i := 0;
      while i < |cacheOrder|
        invariant 0 <= i <= |cacheOrder|
        invariant removed == set j | 0 <= j < i :: cacheFiles[cacheOrder[j]]
        invariant fs.files == old(fs.files) - removed && fs.dirs == old(fs.dirs)
      {
        assert cacheOrder[i] in cacheFiles;
        removed := removed + {cacheFiles[cacheOrder[i]]};
        fs.files := fs.files - {cacheFiles[cacheOrder[i]]};
        i := i + 1;
      }
      forall b | b in cacheFiles.Values
        ensures b in removed
      {
        var p :| p in cacheFiles && cacheFiles[p] == b;
        var j :| 0 <= j < |cacheOrder| && cacheOrder[j] == p;
      }
      assert removed == cacheFiles.Values;
    }

    /** clear_cache. */
    method ClearCache(fs: Disk)
      requires Valid()
      modifies this, fs
      ensures State(fs) == ClearState(old(State(fs)), old(cacheDir))
      ensures maxCacheSize == old(maxCacheSize) && cacheDir == old(cacheDir) && nextSerial == old(nextSerial)
      ensures Faithful(fs)
    {
      RemoveBackingFiles(fs);
      if Removable(fs.files, fs.dirs, cacheDir) {
        fs.dirs := fs.dirs - {cacheDir};
      }
      cacheFiles := map[];
      cacheOrder := [];
    }
  }

  // ---------------------------------------------------------------------------
  // The name collision, on three small files

  lemma CopyWhole(src: seq<char>)
    requires 0 < |src| <= ChunkSize
    ensures CopyFrom(src, 0, 0, None) == Copied(src, true)
  {
    assert CopyFrom(src, |src|, 1, None) == Copied(src, true);
  }

  lemma Names()
    ensures BackingName("t", 0) == "t/cache_0" && BackingName("t", 1) == "t/cache_1"
    ensures BackingName("t", 2) == "t/cache_2"
  {
    assert Decimal(0) == "0" && Decimal(1) == "1" && Decimal(2) == "2";
  }

  const Sources: map<Path, seq<char>> := map["a" := "aaa", "b" := "bbb", "c" := "ccc"]

  /** An empty cache of capacity 2 in directory "t", then the cache once "a"
      and once "b" are cached (both namings agree up to here). */
  const Start: CacheState := CacheState(map[], [], Sources, {"t"})
  const AfterA: CacheState := CacheState(map["a" := "t/cache_0"], ["a"], Sources["t/cache_0" := "aaa"], {"t"})
  const AfterB: CacheState :=
    CacheState(map["a" := "t/cache_0", "b" := "t/cache_1"], ["a", "b"], AfterA.files["t/cache_1" := "bbb"], {"t"})

  lemma CollisionStep1()
    ensures Insert(Start, 2, "t", "a", None) == Some(AfterA)
  {
    Names();
    CopyWhole("aaa");
    assert Evict(Start, 2) == Some(Start);
    assert Sources["t/cache_0" := []]["a"] == "aaa";
    assert Sources["t/cache_0" := []]["t/cache_0" := "aaa"] == AfterA.files;
    assert StoreCopy(Start, "t", "a", "t/cache_0", None) == AfterA;
  }

  lemma CollisionStep2()
    ensures Insert(AfterA, 2, "t", "b", None) == Some(AfterB)
  {
    Names();
    CopyWhole("bbb");
    assert Evict(AfterA, 2) == Some(AfterA);
    assert AfterA.files["t/cache_1" := []]["b"] == "bbb";
    assert AfterA.files["t/cache_1" := []]["t/cache_1" := "bbb"] == AfterB.files;
    assert StoreCopy(AfterA, "t", "b", "t/cache_1", None) == AfterB;
  }

  /** The state after the eviction of "a". */
  lemma EvictA()
    ensures Evict(AfterB, 2) == Some(CacheState(map["b" := "t/cache_1"], ["b"], AfterB.files - {"t/cache_0"}, {"t"}))
  {
    assert AfterB.cacheFiles - {"a"} == map["b" := "t/cache_1"];
  }

  lemma CollisionStep3()
    ensures var r := Insert(AfterB, 2, "t", "c", None);
      r.Some? && r.value.cacheFiles == map["b" := "t/cache_1", "c" := "t/cache_1"] &&
      "t/cache_1" in r.value.files && r.value.files["t/cache_1"] == "ccc"
  {
    Names();
    CopyWhole("ccc");
    EvictA();
    var st := CacheState(map["b" := "t/cache_1"], ["b"], AfterB.files - {"t/cache_0"}, {"t"});
    assert |st.cacheFiles| == 1;
    var truncated := st.files["t/cache_1" := []];
    assert truncated["c"] == "ccc";
    var r := CacheState(map["b" := "t/cache_1", "c" := "t/cache_1"], ["b", "c"], truncated["t/cache_1" := "ccc"], {"t"});
    assert StoreCopy(st, "t", "c", "t/cache_1", None) == r;
  }

  /** Capacity 2, paths "a", "b", "c" cached in turn with the naming as
      written: "c" is given "t/cache_1", the backing file of "b", so a lookup
      of "b" returns the text of "c". */
  lemma CollisionAsWritten()
    ensures Insert(Start, 2, "t", "a", None) == Some(AfterA)
    ensures Insert(AfterA, 2, "t", "b", None) == Some(AfterB) && Lookup(AfterB, "b") == Some("bbb")
    ensures var r := Insert(AfterB, 2, "t", "c", None);
      r.Some? && Lookup(r.value, "b") == Some("ccc")
  {
    CollisionStep1();
    CollisionStep2();
    CollisionStep3();
  }

  /** Until an eviction happens, the corrected naming draws the same numbers
      as the naming as written. */
  lemma FixedAgreesBeforeEviction(st: CacheState, max: int, dir: Path, filePath: Path, failAt: Option<nat>)
    requires ValidState(st, max) && |st.cacheFiles| < max
    ensures InsertFixed(st, max, dir, |st.cacheFiles|, filePath, failAt) == Insert(st, max, dir, filePath, failAt)
  {
  }

  lemma CollisionFixedStep3()
    ensures var r := InsertFixed(AfterB, 2, "t", 2, "c", None);
      r.Some? && r.value.cacheFiles == map["b" := "t/cache_1", "c" := "t/cache_2"] &&
      Lookup(r.value, "b") == Some("bbb") && Lookup(r.value, "c") == Some("ccc")
  {
    Names();
    CopyWhole("ccc");
    EvictA();
    var st := CacheState(map["b" := "t/cache_1"], ["b"], AfterB.files - {"t/cache_0"}, {"t"});
    var truncated := st.files["t/cache_2" := []];
    assert truncated["c"] == "ccc" && truncated["t/cache_1"] == "bbb";
    var r := CacheState(map["b" := "t/cache_1", "c" := "t/cache_2"], ["b", "c"], truncated["t/cache_2" := "ccc"], {"t"});
    assert StoreCopy(st, "t", "c", "t/cache_2", None) == r;
    assert InsertFixed(AfterB, 2, "t", 2, "c", None) == Some(r);
  }

  /** The same three calls with the corrected naming (serials 0, 1, 2): the
      first two give the same states, and then "b" keeps reading back its
      own text. */
  lemma CollisionFixed()
    ensures InsertFixed(Start, 2, "t", 0, "a", None) == Some(AfterA)
    ensures InsertFixed(AfterA, 2, "t", 1, "b", None) == Some(AfterB)
    ensures var r := InsertFixed(AfterB, 2, "t", 2, "c", None);
      r.Some? && Lookup(r.value, "b") == Some("bbb") && Lookup(r.value, "c") == Some("ccc")
  {
    CollisionStep1();
    FixedAgreesBeforeEviction(Start, 2, "t", "a", None);
    CollisionStep2();
    FixedAgreesBeforeEviction(AfterA, 2, "t", "b", None);
    CollisionFixedStep3();
  }
}
