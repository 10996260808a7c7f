/** TLSH hashing of one file and the hash cache with invalidation by file
    metadata (src/tlsh_selector/hash_utils.py). The filesystem is a map from
    path to its current `os.stat` metadata; the cache file on disk is a ghost
    field holding the last snapshot written. */
module HashUtils {
  import opened Base

  /** What opening and reading a file yields. */
  datatype FileContent = Missing | Unreadable(reason: string) | Bytes(data: seq<bv8>)

  /** `compute_tlsh_hash`: read the file and hash its bytes with TLSH
      (`tlsh`). TLSH returns an empty digest for input it cannot hash (too
      short, too uniform); that raises InvalidHashError inside the `try`, so
      the generic handler wraps it in a second message. */
  function ComputeTlshHash(path: Path, content: FileContent, tlsh: seq<bv8> -> string): (r: Result<Hash>)
    ensures r.Success? <==> content.Bytes? && tlsh(content.data) != ""
    ensures r.Success? ==> r.value == tlsh(content.data) && r.value != ""
    ensures r.Failure? ==> r.error.InvalidHashError?
  {
    match content
    case Missing => Failure(InvalidHashError("File not found: " + path))
    case Unreadable(reason) =>
      Failure(InvalidHashError("Error computing TLSH hash for " + path + ": " + reason))
    case Bytes(data) =>
      var digest := tlsh(data);
      if digest == "" then
        Failure(InvalidHashError("Error computing TLSH hash for " + path + ": "
          + "Failed to compute TLSH hash for " + path + " (file may be too small)"))
      else Success(digest)
  }

  /** The two fields of `os.stat` the cache uses: `st_mtime` and `st_size`.
      They are only ever compared for equality. */
  datatype Stat = Stat(mtime: real, size: nat)

  /** The filesystem as the cache sees it: a path is present iff it exists. */
  type FileSystem = map<Path, Stat>

  /** A cache entry `{"hash": ..., "mtime": ..., "size": ...}`. */
  datatype Entry = Entry(hash: Hash, mtime: real, size: nat)

  type Store = map<Path, Entry>

  /** `_is_cache_valid`: the path has an entry, the file still exists, and
      its modification time and size are the ones recorded. */
  predicate IsCacheValid(cache: Store, fs: FileSystem, p: Path) {
    p in cache && p in fs && fs[p].mtime == cache[p].mtime && fs[p].size == cache[p].size
  }

  /** `get`: the recorded hash while its entry is valid, otherwise `None`. */
  function Lookup(cache: Store, fs: FileSystem, p: Path): (r: Option<Hash>)
    ensures r.Some? <==> p in cache && p in fs && fs[p] == Stat(cache[p].mtime, cache[p].size)
    ensures r.Some? ==> r.value == cache[p].hash
  {
    if IsCacheValid(cache, fs, p) then Some(cache[p].hash) else None
  }

  /** The store after `set(p, h)`: the entry for `p` records `h` with the
      file's current metadata; a file that no longer exists is ignored. */
  function StoreHash(cache: Store, fs: FileSystem, p: Path, h: Hash): (r: Store)
    ensures forall q :: q in r <==> q in cache || (q == p && p in fs)
    ensures p in fs ==> r[p] == Entry(h, fs[p].mtime, fs[p].size)
    ensures forall q | q in cache && (q != p || p !in fs) :: r[q] == cache[q]
  {
    if p in fs then cache[p := Entry(h, fs[p].mtime, fs[p].size)] else cache
  }

  /** What `get_all_hashes` returns: every path whose entry is valid, with its hash. */
  function ValidHashes(cache: Store, fs: FileSystem): (r: map<Path, Hash>)
    ensures r.Keys <= cache.Keys
    ensures forall p :: p in r <==> Lookup(cache, fs, p).Some?
    ensures forall p | p in r :: r[p] == cache[p].hash
  {
    map p | p in cache && IsCacheValid(cache, fs, p) :: cache[p].hash
  }

  /** Round trip: after `set(p, h)` on an existing file, `get(p)` is `h`
      as long as the file's metadata stays the same. */
  lemma SetThenGet(cache: Store, fs: FileSystem, fs': FileSystem, p: Path, h: Hash)
    requires p in fs && p in fs' && fs'[p] == fs[p]
    ensures Lookup(StoreHash(cache, fs, p, h), fs', p) == Some(h)
  {
  }

  /** After `set(p, h)`, a change of the file's size or modification time,
      or its removal, makes `get(p)` return `None`. */
  lemma SetThenModify(cache: Store, fs: FileSystem, fs': FileSystem, p: Path, h: Hash)
    requires p in fs
    requires p in fs' ==> fs'[p].mtime != fs[p].mtime || fs'[p].size != fs[p].size
    ensures Lookup(StoreHash(cache, fs, p, h), fs', p) == None
  {
  }

  /** `set(p, h)` leaves the entry and the answer of `get` for every other path as they were. */
  lemma SetKeepsOthers(cache: Store, fs: FileSystem, fs': FileSystem, p: Path, q: Path, h: Hash)
    requires q != p
    ensures q in StoreHash(cache, fs, p, h) <==> q in cache
    ensures q in cache ==> StoreHash(cache, fs, p, h)[q] == cache[q]
    ensures Lookup(StoreHash(cache, fs, p, h), fs', q) == Lookup(cache, fs', q)
  {
  }

  /** A second `set` on the same path overwrites the first. */
  lemma SetOverwrites(cache: Store, fs: FileSystem, p: Path, h1: Hash, h2: Hash)
    ensures StoreHash(StoreHash(cache, fs, p, h1), fs, p, h2) == StoreHash(cache, fs, p, h2)
  {
  }

  /** `set` on a file that no longer exists changes nothing. */
  lemma SetOnMissingFile(cache: Store, fs: FileSystem, p: Path, h: Hash)
    requires p !in fs
    ensures StoreHash(cache, fs, p, h) == cache
  {
  }

  /** The cache file's name, with the separator that joins it to the
      directory. */
  const CacheFileName: string := "/tlsh_cache.pickle"

  /** `cache_dir / "tlsh_cache.pickle"`, the cache file's path as it appears
      in messages. */
  function CacheFilePath(cacheDir: string): (f: string)
    ensures |f| > |cacheDir| && f[..|cacheDir|] == cacheDir
    ensures 18 <= |f| && |cacheDir| + 17 <= |f| <= |cacheDir| + 18 && f[|f| - 18..] == CacheFileName
    ensures (|cacheDir| > 0 && cacheDir[|cacheDir| - 1] == '/') <==> |f| == |cacheDir| + 17
  {
    if |cacheDir| > 0 && cacheDir[|cacheDir| - 1] == '/' then
      assert cacheDir == cacheDir[..|cacheDir| - 1] + [CacheFileName[0]];
      cacheDir[..|cacheDir| - 1] + CacheFileName
    else
      cacheDir + CacheFileName
  }

  /** The cache file on disk at construction time. */
  datatype Snapshot = NoFile | Corrupt(reason: string) | Saved(entries: Store)

  class CacheManager {
    /** `_cache`: the entries in memory. */
    var cache: Store
    /** `_dirty`: the entries in memory may differ from the cache file. */
    var dirty: bool
    /** The cache file: `None` while none has been written or found. */
    ghost var persisted: Option<Store>

    /** `__init__` with `_load_cache`, for a cache file that is absent or
        readable. */
    constructor (snapshot: Snapshot)
      requires !snapshot.Corrupt?
      ensures cache == (if snapshot.Saved? then snapshot.entries else map[])
      ensures persisted == (if snapshot.Saved? then Some(snapshot.entries) else None)
      ensures !dirty
    {
      cache := if snapshot.Saved? then snapshot.entries else map[];
      dirty := false;
      persisted := if snapshot.Saved? then Some(snapshot.entries) else None;
    }

    /** `get` */
    function Get(p: Path, fs: FileSystem): (r: Option<Hash>)
      reads this
      ensures r.Some? <==> IsCacheValid(cache, fs, p)
      ensures r.Some? ==> r.value == cache[p].hash
    {
      Lookup(cache, fs, p)
    }

    /** `set`: record a hash with the file's current metadata and mark the
        cache dirty; a file that has vanished is silently skipped. */
    method Set(p: Path, h: Hash, fs: FileSystem)
      modifies this
      ensures cache == StoreHash(old(cache), fs, p, h)
      ensures dirty == (old(dirty) || p in fs)
      ensures persisted == old(persisted)
      ensures p in fs ==> Get(p, fs) == Some(h)
      ensures p !in fs ==> cache == old(cache) && dirty == old(dirty)
    {
      if p in fs {
        cache := cache[p := Entry(h, fs[p].mtime, fs[p].size)];
        dirty := true;
      }
    }

    /** `get_all_hashes`: a pass over the entries keeping the valid ones. */
    method GetAllHashes(fs: FileSystem) returns (result: map<Path, Hash>)
      ensures result == ValidHashes(cache, fs)
      ensures forall p :: p in result <==> Get(p, fs).Some?
      ensures forall p | p in result :: Get(p, fs) == Some(result[p])
    {
      result := map[];
      var todo := cache.Keys;
      while todo != {}
        invariant todo <= cache.Keys
        invariant forall p :: p in result <==> p in cache && p !in todo && IsCacheValid(cache, fs, p)
        invariant forall p | p in result :: result[p] == cache[p].hash
        decreases todo
      {
        var p :| p in todo;
        if IsCacheValid(cache, fs, p) {
          result := result[p := cache[p].hash];
        }
        todo := todo - {p};
      }
    }

    /** `save` (and `_save_cache`, and `__exit__`): write the entries to the
        cache file if they are dirty, then they are clean. */
    method Save()
      modifies this
      ensures cache == old(cache) && !dirty
      ensures persisted == if old(dirty) then Some(cache) else old(persisted)
    {
      if dirty {
        persisted := Some(cache);
        dirty := false;
      }
    }

    /** `clear`: drop every entry and write the empty cache file at once. */
    method Clear()
      modifies this
      ensures cache == map[] && !dirty && persisted == Some(map[])
      ensures forall p, fs: FileSystem :: Get(p, fs) == None
    {
      cache := map[];
      dirty := true;
      Save();
    }
  }

  /** `CacheManager(cache_dir)`: a cache file that cannot be read raises
      CacheError; otherwise the entries in memory are those of the file (none
      if there is no file) and nothing is dirty. */
  method OpenCache(cacheDir: string, snapshot: Snapshot) returns (r: Result<CacheManager>)
    ensures r.Failure? <==> snapshot.Corrupt?
    ensures r.Failure? ==> r.error == CacheError("Failed to load cache from " + CacheFilePath(cacheDir) + ": " + snapshot.reason)
    ensures r.Success? ==> fresh(r.value) && !r.value.dirty
    ensures r.Success? ==> r.value.cache == (if snapshot.Saved? then snapshot.entries else map[])
    ensures r.Success? ==> r.value.persisted == (if snapshot.Saved? then Some(snapshot.entries) else None)
  {
    if snapshot.Corrupt? {
      return Failure(CacheError("Failed to load cache from " + CacheFilePath(cacheDir) + ": " + snapshot.reason));
    }
    var cm := new CacheManager(snapshot);
    return Success(cm);
  }
}
