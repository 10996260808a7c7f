/** The selector (src/tlsh_selector/selector.py): `select_diverse_files`,
    and `FileSelector`, whose `select` merges cached and computed hashes,
    runs the greedy max-min selection over the files with a valid hash and
    maps the picks back to indices of the caller's list. */
module Selector {
  import opened Base
  import opened Dicts
  import opened Types
  import opened HashUtils
  import opened Parallel
  import opened MaxMin

  /** What the package cannot decide itself: the files and their metadata,
      TLSH (`tlsh.hash`, `tlsh.diff`), the number of CPUs, the order in
      which the tasks of a pool of `m` tasks complete, and the draw
      `random.randint(0, m - 1)`. */
  datatype World = World(
    fs: FileSystem,
    files: Path -> FileContent,
    tlsh: seq<bv8> -> string,
    diff: (Hash, Hash) -> nat,
    cpuCount: nat,
    completion: nat -> seq<nat>,
    draw: nat -> nat)
  {
    ghost predicate Wf() {
      cpuCount >= 1
      && (forall m: nat :: IsPermutation(completion(m), m))
      && (forall m: nat | m > 0 :: draw(m) < m)
    }

    /** `compute_tlsh_hash` as the workers call it. */
    function HashOf(): HashOracle {
      p => ComputeTlshHash(p, files(p), tlsh)
    }
  }

  /** Python truthiness of `cache_dir`: neither `None` nor the empty string. */
  predicate Truthy(dir: Option<string>) {
    dir.Some? && dir.value != ""
  }

  function Digits(n: nat): string
    decreases n
  {
    if n < 10 then ["0123456789"[n]] else Digits(n / 10) + ["0123456789"[n % 10]]
  }

  /** `str(i)` of an integer. */
  function IntToString(i: int): string {
    if i < 0 then "-" + Digits(-i) else Digits(i)
  }

  // ---------------------------------------------------------------------
  // Merging cached and computed hashes (`_compute_or_load_hashes`)
  // ---------------------------------------------------------------------

  /** `if cached_hash:` — the cache answers with a hash that is not empty. */
  predicate IsHit(c: Store, fs: FileSystem, p: Path) {
    Lookup(c, fs, p).Some? && Lookup(c, fs, p).value != ""
  }

  /** The paths the cache answers, in order, repeats kept. */
  function HitPaths(c: Store, fs: FileSystem, paths: seq<Path>): (r: seq<Path>)
    ensures forall p :: p in r <==> p in paths && IsHit(c, fs, p)
    decreases |paths|
  {
    if paths == [] then []
    else
      var init, last := paths[..|paths| - 1], paths[|paths| - 1];
      assert forall p :: p in paths <==> p in init || p == last;
      HitPaths(c, fs, init) + if IsHit(c, fs, last) then [last] else []
  }

  /** The paths the cache does not answer, in order, repeats kept:
      `files_to_compute`. */
  function CacheMisses(c: Store, fs: FileSystem, paths: seq<Path>): (r: seq<Path>)
    ensures forall p :: p in r <==> p in paths && !IsHit(c, fs, p)
    decreases |paths|
  {
    if paths == [] then []
    else
      var init, last := paths[..|paths| - 1], paths[|paths| - 1];
      assert forall p :: p in paths <==> p in init || p == last;
      CacheMisses(c, fs, init) + if IsHit(c, fs, last) then [] else [last]
  }

  /** `hash_dict` after the pass over the cache: every path the cache
      answers, with the cached hash (its key order: `CacheHitsOrder`). */
  function CacheHits(c: Store, fs: FileSystem, paths: seq<Path>): (d: Dict)
    ensures d.Wf()
    ensures forall p :: p in d.vals <==> p in paths && IsHit(c, fs, p)
    ensures forall p | p in d.vals :: p in c && d.vals[p] == c[p].hash
    decreases |paths|
  {
    if paths == [] then Empty()
    else
      var init, last := paths[..|paths| - 1], paths[|paths| - 1];
      var d := CacheHits(c, fs, init);
      assert forall p :: p in paths <==> p in init || p == last;
      if IsHit(c, fs, last) then Put(d, last, c[last].hash) else d
  }

  /** The cache hits come in the order of their first occurrence in `paths`. */
  lemma {:induction false} CacheHitsOrder(c: Store, fs: FileSystem, paths: seq<Path>)
    ensures CacheHits(c, fs, paths).keys == Dedup(HitPaths(c, fs, paths))
    decreases |paths|
  {
    if paths != [] {
      var init, last := paths[..|paths| - 1], paths[|paths| - 1];
      CacheHitsOrder(c, fs, init);
      if IsHit(c, fs, last) {
        DedupSnoc(HitPaths(c, fs, init), last);
      } else {
        assert HitPaths(c, fs, paths) == HitPaths(c, fs, init) + [];
        assert HitPaths(c, fs, init) + [] == HitPaths(c, fs, init);
      }
    }
  }

  /** The key order of `compute_hashes_parallel`'s result for `paths`. */
  function ComputedKeys(paths: seq<Path>, nJobs: int, world: World): seq<Path>
    requires world.Wf()
  {
    var hashOf := world.HashOf();
    if Workers(nJobs, world.cpuCount) == 1 then Dedup(Succeeded(paths, hashOf))
    else Dedup(Succeeded(Reorder(paths, world.completion(|paths|)), hashOf))
  }

  /** `files_to_compute`: the paths the cache does not answer, or all of
      them when there is no cache. */
  function ToCompute(cached: bool, c: Store, fs: FileSystem, paths: seq<Path>): seq<Path> {
    if cached then CacheMisses(c, fs, paths) else paths
  }

  /** What `_compute_or_load_hashes` returns: the cache hits (none without
      a cache) updated with the batch of computed hashes. Every path is
      either answered by the cache or hashed, never both; a path the cache
      answers keeps its cached hash; a hashed path is in the result iff
      hashing it succeeds, with that hash; nothing else is in the result. */
  function MergedHashes(cached: bool, c: Store, fs: FileSystem, paths: seq<Path>, nJobs: int, world: World): (m: Dict)
    requires world.Wf()
    ensures var toCompute := ToCompute(cached, c, fs, paths);
      && (forall p | p in paths :: p in toCompute <==> !(cached && IsHit(c, fs, p)))
      && (forall p | p in toCompute :: p in paths)
      && (forall p | p in m.vals :: p in paths)
      && (forall p | p in paths && cached && IsHit(c, fs, p) :: p in m.vals && m.vals[p] == c[p].hash)
      && (forall p | p in toCompute ::
            (p in m.vals <==> world.HashOf()(p).Success?)
            && (p in m.vals ==> m.vals[p] == world.HashOf()(p).value))
  {
    var hits := if cached then CacheHits(c, fs, paths) else Empty();
    var toCompute := ToCompute(cached, c, fs, paths);
    Dict(hits.keys + ComputedKeys(toCompute, nJobs, world), hits.vals + HashesOf(toCompute, world.HashOf()))
  }

  /** The cache entries after `set` has been called, in order, for each of
      `ks` with its hash in `vals`. */
  function StoreAll(c: Store, fs: FileSystem, ks: seq<Path>, vals: map<Path, Hash>): (r: Store)
    requires forall k | k in ks :: k in vals
    ensures forall p :: p in r <==> p in c || (p in ks && p in fs)
    decreases |ks|
  {
    if ks == [] then c
    else
      var init := ks[..|ks| - 1];
      assert forall k | k in init :: k in ks;
      assert forall k :: k in ks <==> k in init || k == ks[|ks| - 1];
      StoreHash(StoreAll(c, fs, init, vals), fs, ks[|ks| - 1], vals[ks[|ks| - 1]])
  }

  /** What the `set` calls change: each of `ks` whose file exists is
      recorded with its hash and the file's metadata, and every other entry
      stays as it was. */
  lemma {:induction false} StoreAllEffect(c: Store, fs: FileSystem, ks: seq<Path>, vals: map<Path, Hash>)
    requires forall k | k in ks :: k in vals
    ensures forall p | p in ks && p in fs :: StoreAll(c, fs, ks, vals)[p] == Entry(vals[p], fs[p].mtime, fs[p].size)
    ensures forall p | p in c && p !in ks :: StoreAll(c, fs, ks, vals)[p] == c[p]
    decreases |ks|
  {
    if ks != [] {
      var init := ks[..|ks| - 1];
      assert forall k | k in init :: k in ks;
      assert forall k :: k in ks <==> k in init || k == ks[|ks| - 1];
      StoreAllEffect(c, fs, init, vals);
    }
  }

  /** Some of `ks` names a file that exists, so some `set` call records it
      and marks the cache dirty. */
  predicate AnyOnDisk(ks: seq<Path>, fs: FileSystem) {
    exists k | k in ks :: k in fs
  }

  /** Every hash stored by the `set` calls is what `get` answers afterwards,
      as long as the files do not change. */
  lemma StoredHashesAreCached(c: Store, fs: FileSystem, ks: seq<Path>, vals: map<Path, Hash>, p: Path)
    requires forall k | k in ks :: k in vals
    requires p in ks && p in fs
    ensures Lookup(StoreAll(c, fs, ks, vals), fs, p) == Some(vals[p])
  {
    StoreAllEffect(c, fs, ks, vals);
  }

  // ---------------------------------------------------------------------
  // The greedy selection (`_greedy_selection`)
  // ---------------------------------------------------------------------

  /** An entry of `min_distances`: `inf` (no distance computed yet), `-1`
      (already selected), or the smallest distance computed so far. */
  datatype MinDistance = Unseen | Selected | Dist(d: nat)

  /** The entry of candidate `i` at the start of a round whose current pick
      is the last of `sel`: the distances from the earlier picks are folded in. */
  function Pending(sp: Space, sel: seq<nat>, i: nat): MinDistance
    requires sp.Wf() && sp.InRange(sel) && |sel| >= 1 && i < |sp.paths|
  {
    if i in sel then Selected
    else if |sel| == 1 then Unseen
    else Dist(sp.MinDist(sel[..|sel| - 1], i))
  }

  /** The entry of candidate `i` once the current pick's distance is folded in. */
  function Folded(sp: Space, sel: seq<nat>, i: nat): MinDistance
    requires sp.Wf() && sp.InRange(sel) && |sel| >= 1 && i < |sp.paths|
  {
    if i in sel then Selected else Dist(sp.MinDist(sel, i))
  }

  /** `c` is the best candidate among the first `k` positions. */
  predicate BestSoFar(sp: Space, sel: seq<nat>, c: nat, k: nat)
    requires sp.Wf() && sp.InRange(sel) && |sel| >= 1 && k <= |sp.paths|
  {
    c < k && c !in sel
    && (forall u: nat | u < k && u !in sel :: sp.MinDist(sel, u) <= sp.MinDist(sel, c))
    && (forall u: nat | u < c && u !in sel :: sp.MinDist(sel, u) < sp.MinDist(sel, c))
  }

  lemma FoldStep(sp: Space, sel: seq<nat>, i: nat, old_: MinDistance, distance: nat)
    requires sp.Wf() && sp.InRange(sel) && |sel| >= 1 && i < |sp.paths| && i !in sel
    requires old_ == Pending(sp, sel, i) && distance == sp.Dist(sel[|sel| - 1], i)
    ensures old_.Unseen? ==> Folded(sp, sel, i) == Dist(distance)
    ensures old_.Dist? ==> Folded(sp, sel, i) == Dist(Min(old_.d, distance))
  {
  }

  /** After a pick `c`, the folded entries are the pending ones of the next round. */
  lemma NextRound(sp: Space, sel: seq<nat>, c: nat, i: nat)
    requires sp.Wf() && sp.InRange(sel) && |sel| >= 1 && c < |sp.paths| && i < |sp.paths|
    ensures sp.InRange(sel + [c])
    ensures Pending(sp, sel + [c], i) == if i == c then Selected else Folded(sp, sel, i)
  {
    var s := sel + [c];
    assert s[..|s| - 1] == sel;
    assert i in s <==> i in sel || i == c;
  }

  // ---------------------------------------------------------------------
  // Mapping positions back to the caller's indices
  // ---------------------------------------------------------------------

  /** `list.index`: the first position holding `x`. */
  function IndexOf(s: seq<Path>, x: Path): (i: nat)
    requires x in s
    ensures i < |s| && s[i] == x
    ensures forall j | 0 <= j < i :: s[j] != x
  {
    if s[0] == x then 0 else 1 + IndexOf(s[1..], x)
  }

  /** `[file_paths.index(valid_paths[idx]) for idx in selected_indices]`. */
  function MapBack(filePaths: seq<Path>, validPaths: seq<Path>, sel: seq<nat>): (indices: seq<nat>)
    requires forall t | 0 <= t < |sel| :: sel[t] < |validPaths| && validPaths[sel[t]] in filePaths
    ensures |indices| == |sel|
    ensures forall j | 0 <= j < |sel| :: indices[j] < |filePaths| && filePaths[indices[j]] == validPaths[sel[j]]
    ensures forall j, k | 0 <= j < |sel| && 0 <= k < indices[j] :: filePaths[k] != validPaths[sel[j]]
  {
    seq(|sel|, j requires 0 <= j < |sel| => IndexOf(filePaths, validPaths[sel[j]]))
  }

  /** Distinct picks of distinct valid paths map back to distinct indices. */
  lemma MapBackDistinct(filePaths: seq<Path>, validPaths: seq<Path>, sel: seq<nat>)
    requires forall t | 0 <= t < |sel| :: sel[t] < |validPaths| && validPaths[sel[t]] in filePaths
    requires Distinct(validPaths) && Distinct(sel)
    ensures Distinct(MapBack(filePaths, validPaths, sel))
  {
    var indices := MapBack(filePaths, validPaths, sel);
    forall i, j | 0 <= i < j < |indices|
      ensures indices[i] != indices[j]
    {
      assert validPaths[sel[i]] != validPaths[sel[j]];
    }
  }

  /** `[file_paths[i] for i in original_indices]`. */
  function SelectedPaths(filePaths: seq<Path>, indices: seq<nat>): (paths: seq<Path>)
    requires forall j | 0 <= j < |indices| :: indices[j] < |filePaths|
    ensures |paths| == |indices|
    ensures forall j | 0 <= j < |indices| :: paths[j] == filePaths[indices[j]]
  {
    seq(|indices|, j requires 0 <= j < |indices| => filePaths[indices[j]])
  }

  /** `result` is what `select` returns for the valid hashes `d` (its keys
      in insertion order are the candidates) and the first pick `first`:
      the greedy run `positions` of `max(n_select, 1)` picks (or all
      candidates, if fewer), its scores, the picks mapped back to their
      first occurrence in `filePaths` with their paths, the hashes when
      `withHashes`, and the elapsed time. */
  ghost predicate IsSelectionOf(result: SelectionResult, positions: seq<nat>, filePaths: seq<Path>, d: Dict,
                                diff: (Hash, Hash) -> nat, first: nat, nSelect: int, withHashes: bool, elapsed: real)
  {
    && d.Wf() && first < |d.keys|
    && (forall p | p in d.vals :: p in filePaths)
    && |positions| == Min(Max(nSelect, 1), |d.keys|)
    && Space(d.keys, d.vals, diff).IsRun(first, positions)
    && result.diversityScores == Some(Space(d.keys, d.vals, diff).Scores(positions))
    && (forall t | 0 <= t < |positions| :: d.keys[positions[t]] in filePaths)
    && result.indices == MapBack(filePaths, d.keys, positions)
    && Distinct(result.indices)
    && |result.filePaths| == |result.indices|
    && (forall j | 0 <= j < |result.indices| ::
          result.indices[j] < |filePaths| && result.filePaths[j] == filePaths[result.indices[j]])
    && result.hashes == (if withHashes then Some(d) else None)
    && result.elapsedTime == Some(elapsed)
  }

  /** What `select` returns once the valid hashes `d` are known:
      InsufficientFilesError iff `d` has fewer keys than `nSelect`; the
      ValueError of `random.randint(0, -1)` when there are no keys (left
      only when `nSelect <= 0`); otherwise the selection from the first pick
      `draw(|d.keys|)`. */
  ghost predicate Outcome(r: Result<SelectionResult>, positions: seq<nat>, filePaths: seq<Path>, d: Dict, nSelect: int,
                          diff: (Hash, Hash) -> nat, draw: nat -> nat, withHashes: bool, elapsed: real)
  {
    && (|d.keys| < nSelect ==> r == Failure(InsufficientFilesError(|d.keys|, nSelect)))
    && (nSelect <= |d.keys| == 0 ==> r == Failure(ValueError("empty range in randrange(0, 0)")))
    && (nSelect <= |d.keys| && |d.keys| > 0 <==> r.Success?)
    && (r.Success? ==> IsSelectionOf(r.value, positions, filePaths, d, diff, draw(|d.keys|), nSelect, withHashes, elapsed))
  }

  /** A selection for `1 <= nSelect` has exactly `nSelect` distinct indices
      into `filePaths`, each with its path, and as many scores, the first
      infinite. */
  lemma SelectionShape(result: SelectionResult, positions: seq<nat>, filePaths: seq<Path>, d: Dict,
                       diff: (Hash, Hash) -> nat, first: nat, nSelect: int, withHashes: bool, elapsed: real)
    requires IsSelectionOf(result, positions, filePaths, d, diff, first, nSelect, withHashes, elapsed)
    requires 1 <= nSelect <= |d.keys|
    ensures |result.indices| == |result.filePaths| == nSelect
    ensures Distinct(result.indices)
    ensures forall j | 0 <= j < nSelect ::
              result.indices[j] < |filePaths| && result.filePaths[j] == filePaths[result.indices[j]]
    ensures result.diversityScores.Some? && |result.diversityScores.value| == nSelect
    ensures result.diversityScores.value[0] == Inf
  {
  }

  // ---------------------------------------------------------------------
  // FileSelector
  // ---------------------------------------------------------------------

  class FileSelector {
    /** `_cache_dir` */
    var cacheDir: Option<string>
    /** `_cache_manager`: present iff `cache_dir` is truthy. */
    var cacheManager: CacheManager?
    /** `_n_jobs` */
    var nJobs: int
    /** `_hash_dict`: the hashes of the last `select`. */
    var hashDict: Dict

    ghost predicate Valid()
      reads this
    {
      (cacheManager != null <==> Truthy(cacheDir)) && hashDict.Wf()
    }

    /** `__init__`, given the cache manager it creates. */
    constructor (cacheDir: Option<string>, nJobs: int, cacheManager: CacheManager?)
      requires cacheManager != null <==> Truthy(cacheDir)
      ensures Valid()
      ensures this.cacheDir == cacheDir && this.cacheManager == cacheManager && this.nJobs == nJobs
      ensures hashDict == Empty()
    {
      this.cacheDir := cacheDir;
      this.cacheManager := cacheManager;
      this.nJobs := nJobs;
      hashDict := Empty();
    }

    /** The pass over the cache: the hits, and `files_to_compute`. */
    method LoadFromCache(filePaths: seq<Path>, fs: FileSystem) returns (hits: Dict, toCompute: seq<Path>)
      requires cacheManager != null
      ensures hits == CacheHits(cacheManager.cache, fs, filePaths)
      ensures toCompute == CacheMisses(cacheManager.cache, fs, filePaths)
    {
      hits := Empty();
      toCompute := [];
      for i := 0 to |filePaths|
        invariant hits == CacheHits(cacheManager.cache, fs, filePaths[..i])
        invariant toCompute == CacheMisses(cacheManager.cache, fs, filePaths[..i])
      {
        var filePath := filePaths[i];
        assert filePaths[..i + 1][..i] == filePaths[..i];
        var cachedHash := cacheManager.Get(filePath, fs);
        if cachedHash.Some? && cachedHash.value != "" {
          hits := Put(hits, filePath, cachedHash.value);
        } else {
          toCompute := toCompute + [filePath];
        }
      }
      assert filePaths[..|filePaths|] == filePaths;
    }

    /** The `set` calls for the computed hashes, in the dict's order. */
    method StoreComputed(computed: Dict, fs: FileSystem)
      requires cacheManager != null && computed.Wf()
      modifies cacheManager
      ensures cacheManager.cache == StoreAll(old(cacheManager.cache), fs, computed.keys, computed.vals)
      ensures cacheManager.dirty == (old(cacheManager.dirty) || AnyOnDisk(computed.keys, fs))
      ensures cacheManager.persisted == old(cacheManager.persisted)
    {
      for i := 0 to |computed.keys|
        invariant cacheManager.cache == StoreAll(old(cacheManager.cache), fs, computed.keys[..i], computed.vals)
        invariant cacheManager.dirty == (old(cacheManager.dirty) || AnyOnDisk(computed.keys[..i], fs))
        invariant cacheManager.persisted == old(cacheManager.persisted)
      {
        var filePath := computed.keys[i];
        var ks := computed.keys[..i + 1];
        assert ks[..i] == computed.keys[..i] && ks[i] == filePath;
        assert forall k :: k in ks <==> k in computed.keys[..i] || k == filePath;
        cacheManager.Set(filePath, computed.vals[filePath], fs);
      }
      assert computed.keys[..|computed.keys|] == computed.keys;
    }

    /** The entries of the cache, none without a cache. */
    ghost function CacheState(): Store
      reads this, cacheManager
    {
      if cacheManager != null then cacheManager.cache else map[]
    }

    /** The cache's dirty flag, false without a cache. */
    ghost predicate CacheDirty()
      reads this, cacheManager
    {
      cacheManager != null && cacheManager.dirty
    }

    /** The cache file, none without a cache. */
    ghost function SavedCache(): Option<Store>
      reads this, cacheManager
    {
      if cacheManager != null then cacheManager.persisted else None
    }

    /** `_compute_or_load_hashes`. Paths the cache answers are taken from it
        and never hashed; every other path (all of them without a cache) is
        hashed in one batch, whose hashes are added after the cached ones
        and passed to the cache's `set`. */
    method ComputeOrLoadHashes(filePaths: seq<Path>, world: World) returns (r: Result<Dict>, ghost toCompute: seq<Path>)
      requires Valid() && world.Wf()
      modifies cacheManager
      ensures toCompute == ToCompute(cacheManager != null, old(CacheState()), world.fs, filePaths)
      ensures r.Failure? <==> toCompute != [] && Workers(nJobs, world.cpuCount) <= 0
      ensures r.Failure? ==> r.error == ValueError("max_workers must be greater than 0")
      ensures r.Failure? ==> CacheState() == old(CacheState())
      ensures r.Success? ==> r.value.Wf()
      ensures r.Success? ==> r.value == MergedHashes(cacheManager != null, old(CacheState()), world.fs, filePaths, nJobs, world)
      ensures r.Success? && cacheManager != null ==>
                cacheManager.cache
                == StoreAll(old(cacheManager.cache), world.fs, ComputedKeys(toCompute, nJobs, world),
                            HashesOf(toCompute, world.HashOf()))
      ensures CacheDirty()
              == (old(CacheDirty()) || (r.Success? && cacheManager != null
                                        && AnyOnDisk(ComputedKeys(toCompute, nJobs, world), world.fs)))
      ensures SavedCache() == old(SavedCache())
    {
      var hashDict := Empty();
      var filesToCompute: seq<Path>;
      if cacheManager != null {
        hashDict, filesToCompute := LoadFromCache(filePaths, world.fs);
      } else {
        filesToCompute := filePaths;
      }
      toCompute := filesToCompute;
      r := HashMisses(hashDict, filesToCompute, world);
    }

    /** The second half of `_compute_or_load_hashes`: the paths the cache did
        not answer are hashed in one batch (if there are any), added to
        `hits`, and passed to the cache's `set`. */
    method HashMisses(hits: Dict, toCompute: seq<Path>, world: World) returns (r: Result<Dict>)
      requires hits.Wf() && world.Wf()
      requires forall p | p in hits.vals :: p !in toCompute
      modifies cacheManager
      ensures r.Failure? <==> toCompute != [] && Workers(nJobs, world.cpuCount) <= 0
      ensures r.Failure? ==> r.error == ValueError("max_workers must be greater than 0")
      ensures r.Failure? ==> CacheState() == old(CacheState())
      ensures r.Success? ==> r.value.Wf()
      ensures r.Success? ==>
                r.value == Dict(hits.keys + ComputedKeys(toCompute, nJobs, world),
                                hits.vals + HashesOf(toCompute, world.HashOf()))
      ensures r.Success? && cacheManager != null ==>
                cacheManager.cache
                == StoreAll(old(cacheManager.cache), world.fs, ComputedKeys(toCompute, nJobs, world),
                            HashesOf(toCompute, world.HashOf()))
      ensures CacheDirty()
              == (old(CacheDirty()) || (r.Success? && cacheManager != null
                                        && AnyOnDisk(ComputedKeys(toCompute, nJobs, world), world.fs)))
      ensures SavedCache() == old(SavedCache())
    {
      if toCompute == [] {
        assert HashesOf(toCompute, world.HashOf()) == map[];
        assert ComputedKeys(toCompute, nJobs, world) == [];
        assert hits.keys + [] == hits.keys;
        return Success(hits);
      }
      var computedHashes :- ComputeHashesParallel(toCompute, nJobs, world.HashOf(), world.cpuCount,
                                                   world.completion(|toCompute|));
      assert computedHashes.keys == ComputedKeys(toCompute, nJobs, world);
      var hashDict := Update(hits, computedHashes);
      if cacheManager != null {
        StoreComputed(computedHashes, world.fs);
      }
      return Success(hashDict);
    }

    /** `_greedy_selection` over `paths` (the valid paths), from the first
        pick `first` (`random.randint(0, n - 1)`). It makes
        `max(n_select, 1)` picks, or `n` if there are fewer candidates, and
        each is the choice of its round; the scores are those of the run. */
    method GreedySelection(paths: seq<Path>, nSelect: int, first: nat, diff: (Hash, Hash) -> nat)
      returns (selected: seq<nat>, scores: seq<Score>)
      requires forall p | p in paths :: p in hashDict.vals
      requires first < |paths|
      ensures |selected| == Min(Max(nSelect, 1), |paths|)
      ensures Space(paths, hashDict.vals, diff).IsRun(first, selected)
      ensures scores == Space(paths, hashDict.vals, diff).Scores(selected)
    {
      var n := |paths|;
      ghost var sp := Space(paths, hashDict.vals, diff);
      var minDistances := new MinDistance[n](_ => Unseen);
      selected := [first];
      minDistances[first] := Selected;
      scores := [Inf];
      var rounds := if nSelect - 1 > 0 then nSelect - 1 else 0;
      for round := 0 to rounds
        invariant sp.IsRun(first, selected)
        invariant |selected| == Min(round + 1, n)
        invariant scores == sp.Scores(selected)
        invariant forall i | 0 <= i < n :: minDistances[i] == Pending(sp, selected, i)
      {
        var maxMinDistance, nextIdx := ScanCandidates(paths, minDistances, selected, diff, sp);
        RunDistinct(sp, first, selected);
        if nextIdx != -1 {
          forall i | 0 <= i < n
            ensures Pending(sp, selected + [nextIdx], i) == if i == nextIdx then Selected else minDistances[i]
          {
            NextRound(sp, selected, nextIdx, i);
          }
          RunSnoc(sp, first, selected, nextIdx);
          ScoresSnoc(sp, selected, nextIdx);
          selected := selected + [nextIdx];
          scores := scores + [Fin(maxMinDistance)];
          minDistances[nextIdx] := Selected;
          RunDistinct(sp, first, selected);
        } else {
          DistinctIndices(selected, n);
        }
      }
    }

    /** One round (`for idx in range(n)`): fold the distance from the current
        pick, the last of `selected`, into the entry of every unselected
        position, and find the unselected position with the largest entry,
        the lowest on ties, or -1 when every position is selected. */
    method ScanCandidates(paths: seq<Path>, minDistances: array<MinDistance>, selected: seq<nat>,
                          diff: (Hash, Hash) -> nat, ghost sp: Space)
      returns (maxMinDistance: int, nextIdx: int)
      requires sp == Space(paths, hashDict.vals, diff) && sp.Wf() && sp.InRange(selected) && |selected| >= 1
      requires minDistances.Length == |paths|
      requires forall i | 0 <= i < |paths| :: minDistances[i] == Pending(sp, selected, i)
      modifies minDistances
      ensures forall i | 0 <= i < |paths| :: minDistances[i] == Folded(sp, selected, i)
      ensures -1 <= nextIdx < |paths|
      ensures nextIdx == -1 ==> forall u: nat | u < |paths| :: u in selected
      ensures nextIdx >= 0 ==> sp.IsChoice(selected, nextIdx) && maxMinDistance == sp.MinDist(selected, nextIdx)
    {
      var n := |paths|;
      var currentPath := paths[selected[|selected| - 1]];
      var currentHash := hashDict.vals[currentPath];
      maxMinDistance := -1;
      nextIdx := -1;
      for idx := 0 to n
        invariant forall i | 0 <= i < idx :: minDistances[i] == Folded(sp, selected, i)
        invariant forall i | idx <= i < n :: minDistances[i] == Pending(sp, selected, i)
        invariant -1 <= nextIdx < idx
        invariant nextIdx == -1 ==> maxMinDistance == -1 && forall u: nat | u < idx :: u in selected
        invariant nextIdx >= 0 ==> BestSoFar(sp, selected, nextIdx, idx) && maxMinDistance == sp.MinDist(selected, nextIdx)
      {
        if minDistances[idx] == Selected {
          continue;
        }
        var candidateHash := hashDict.vals[paths[idx]];
        var distance := diff(currentHash, candidateHash);
        FoldStep(sp, selected, idx, minDistances[idx], distance);
        if minDistances[idx] == Unseen {
          minDistances[idx] := Dist(distance);
        } else {
          minDistances[idx] := Dist(Min(minDistances[idx].d, distance));
        }
        if minDistances[idx].d > maxMinDistance {
          maxMinDistance := minDistances[idx].d;
          nextIdx := idx;
        }
      }
    }

    /** `select`. Hashes come from `_compute_or_load_hashes` and replace
        `hashDict` (an error there leaves everything as it was); the
        outcome is then the `Outcome` for them: InsufficientFilesError iff
        fewer valid files than requested, before any selection, otherwise
        the greedy run over the valid paths from the drawn first pick; and
        on success the cache, if any, is saved. */
    method Select(filePaths: seq<Path>, nSelect: int, world: World, elapsed: real)
      returns (r: Result<SelectionResult>, ghost positions: seq<nat>)
      requires Valid() && world.Wf()
      modifies this, cacheManager
      ensures Valid()
      ensures cacheDir == old(cacheDir) && cacheManager == old(cacheManager) && nJobs == old(nJobs)
      ensures var tc := ToCompute(cacheManager != null, old(CacheState()), world.fs, filePaths);
              tc != [] && Workers(nJobs, world.cpuCount) <= 0 ==>
                && r == Failure(ValueError("max_workers must be greater than 0"))
                && hashDict == old(hashDict)
                && CacheState() == old(CacheState()) && CacheDirty() == old(CacheDirty())
                && SavedCache() == old(SavedCache())
      ensures var tc := ToCompute(cacheManager != null, old(CacheState()), world.fs, filePaths);
              var ck := ComputedKeys(tc, nJobs, world);
              !(tc != [] && Workers(nJobs, world.cpuCount) <= 0) ==>
                && hashDict == MergedHashes(cacheManager != null, old(CacheState()), world.fs, filePaths, nJobs, world)
                && Outcome(r, positions, filePaths, hashDict, nSelect, world.diff, world.draw, Truthy(cacheDir), elapsed)
                && (cacheManager != null ==>
                      cacheManager.cache == StoreAll(old(CacheState()), world.fs, ck, HashesOf(tc, world.HashOf())))
                && (r.Failure? ==>
                      CacheDirty() == (old(CacheDirty()) || (cacheManager != null && AnyOnDisk(ck, world.fs)))
                      && SavedCache() == old(SavedCache()))
                && (r.Success? ==>
                      !CacheDirty()
                      && SavedCache() == if old(CacheDirty()) || (cacheManager != null && AnyOnDisk(ck, world.fs))
                                         then Some(CacheState()) else old(SavedCache()))
    {
      var computed, toCompute := ComputeOrLoadHashes(filePaths, world);
      if computed.Failure? {
        return Failure(computed.error), [];
      }
      r, positions := Finish(computed.value, filePaths, nSelect, world, elapsed);
    }

    /** The part of `select` after the hashes are known: `computed` becomes
        `hashDict`, then the check for too few valid files, the draw of the
        first pick, the selection, and saving the cache. */
    method Finish(computed: Dict, filePaths: seq<Path>, nSelect: int, world: World, elapsed: real)
      returns (r: Result<SelectionResult>, ghost positions: seq<nat>)
      requires Valid() && world.Wf() && computed.Wf()
      requires forall p | p in computed.vals :: p in filePaths
      modifies this, cacheManager
      ensures Valid()
      ensures cacheDir == old(cacheDir) && cacheManager == old(cacheManager) && nJobs == old(nJobs)
      ensures hashDict == computed
      ensures Outcome(r, positions, filePaths, hashDict, nSelect, world.diff, world.draw, Truthy(cacheDir), elapsed)
      ensures CacheState() == old(CacheState())
      ensures r.Failure? ==> CacheDirty() == old(CacheDirty()) && SavedCache() == old(SavedCache())
      ensures r.Success? ==>
                !CacheDirty() && SavedCache() == if old(CacheDirty()) then Some(CacheState()) else old(SavedCache())
    {
      positions := [];
      hashDict := computed;
      var validPaths := hashDict.keys;
      if |validPaths| < nSelect {
        return Failure(InsufficientFilesError(|validPaths|, nSelect)), positions;
      }
      if |validPaths| == 0 {
        // random.randint(0, -1)
        return Failure(ValueError("empty range in randrange(0, 0)")), positions;
      }
      var first := world.draw(|validPaths|);
      var result;
      result, positions := SelectAmongValid(filePaths, nSelect, first, world.diff, elapsed);
      if cacheManager != null {
        cacheManager.Save();
      }
      r := Success(result);
    }

    /** The rest of `select`: the greedy run over the valid paths (the keys
        of `hashDict`, in insertion order) from the first pick `first`,
        mapped back to first-occurrence indices of `filePaths`, and the
        result record, which carries the hashes only when there is a cache
        directory. */
    method SelectAmongValid(filePaths: seq<Path>, nSelect: int, first: nat, diff: (Hash, Hash) -> nat, elapsed: real)
      returns (result: SelectionResult, ghost positions: seq<nat>)
      requires hashDict.Wf() && first < |hashDict.keys|
      requires forall p | p in hashDict.vals :: p in filePaths
      ensures IsSelectionOf(result, positions, filePaths, hashDict, diff, first, nSelect, Truthy(cacheDir), elapsed)
    {
      var validPaths := hashDict.keys;
      var selectedIndices, diversityScores := GreedySelection(validPaths, nSelect, first, diff);
      positions := selectedIndices;
      ghost var sp := Space(validPaths, hashDict.vals, diff);
      RunDistinct(sp, first, selectedIndices);
      var originalIndices := MapBack(filePaths, validPaths, selectedIndices);
      MapBackDistinct(filePaths, validPaths, selectedIndices);
      var selectedPaths := SelectedPaths(filePaths, originalIndices);
      var hashes := if Truthy(cacheDir) then Some(hashDict) else None;
      var scores := if |diversityScores| > 0 then Some(diversityScores) else None;
      result := SelectionResult(originalIndices, selectedPaths, hashes, scores, Some(elapsed));
    }

    /** `compute_hashes`: the merge of cached and computed hashes, then the
        cache, if any, is saved. */
    method ComputeHashes(filePaths: seq<Path>, world: World) returns (r: Result<Dict>, ghost toCompute: seq<Path>)
      requires Valid() && world.Wf()
      modifies cacheManager
      ensures toCompute == ToCompute(cacheManager != null, old(CacheState()), world.fs, filePaths)
      ensures r.Failure? <==> toCompute != [] && Workers(nJobs, world.cpuCount) <= 0
      ensures r.Failure? ==> r.error == ValueError("max_workers must be greater than 0")
      ensures r.Failure? ==>
                CacheState() == old(CacheState()) && CacheDirty() == old(CacheDirty()) && SavedCache() == old(SavedCache())
      ensures r.Success? ==> r.value.Wf()
      ensures r.Success? ==> r.value == MergedHashes(cacheManager != null, old(CacheState()), world.fs, filePaths, nJobs, world)
      ensures r.Success? && cacheManager != null ==>
                cacheManager.cache
                == StoreAll(old(cacheManager.cache), world.fs, ComputedKeys(toCompute, nJobs, world),
                            HashesOf(toCompute, world.HashOf()))
      ensures r.Success? ==> !CacheDirty()
      ensures r.Success? ==>
                SavedCache()
                == if old(CacheDirty()) || (cacheManager != null && AnyOnDisk(ComputedKeys(toCompute, nJobs, world), world.fs))
                   then Some(CacheState()) else old(SavedCache())
    {
      r, toCompute := ComputeOrLoadHashes(filePaths, world);
      if r.Success? && cacheManager != null {
        cacheManager.Save();
      }
    }

    /** `get_cached_hashes`: the valid cache entries, or ValueError without a cache. */
    method GetCachedHashes(fs: FileSystem) returns (r: Result<map<Path, Hash>>)
      requires Valid()
      ensures r.Failure? <==> !Truthy(cacheDir)
      ensures r.Failure? ==> r.error == ValueError("No cache directory configured")
      ensures r.Success? ==> forall p :: p in r.value <==> cacheManager.Get(p, fs).Some?
      ensures r.Success? ==> forall p | p in r.value :: cacheManager.Get(p, fs) == Some(r.value[p])
    {
      if cacheManager == null {
        return Failure(ValueError("No cache directory configured"));
      }
      var hashes := cacheManager.GetAllHashes(fs);
      return Success(hashes);
    }

    /** `clear_cache`: empty the cache and its file, or ValueError without a cache. */
    method ClearCache() returns (r: Result<()>)
      requires Valid()
      modifies cacheManager
      ensures r.Failure? <==> !Truthy(cacheDir)
      ensures r.Failure? ==> r.error == ValueError("No cache directory configured")
      ensures r.Success? ==> cacheManager.cache == map[] && !cacheManager.dirty && cacheManager.persisted == Some(map[])
    {
      if cacheManager == null {
        return Failure(ValueError("No cache directory configured"));
      }
      cacheManager.Clear();
      return Success(());
    }
  }

  /** The entries a new selector's cache starts with: those of the cache
      file, if there is a cache directory and a readable file. */
  function InitialCache(cacheDir: Option<string>, snapshot: Snapshot): Store {
    if Truthy(cacheDir) && snapshot.Saved? then snapshot.entries else map[]
  }

  /** `FileSelector(cache_dir=..., n_jobs=...)`: a cache manager is created
      iff `cache_dir` is truthy, which raises CacheError when its cache file
      cannot be read. */
  method NewFileSelector(cacheDir: Option<string>, nJobs: int, snapshot: Snapshot) returns (r: Result<FileSelector>)
    ensures r.Failure? <==> Truthy(cacheDir) && snapshot.Corrupt?
    ensures r.Failure? ==>
              r.error == CacheError("Failed to load cache from " + CacheFilePath(cacheDir.value) + ": " + snapshot.reason)
    ensures r.Success? ==> fresh(r.value) && r.value.Valid() && r.value.hashDict == Empty()
    ensures r.Success? ==> r.value.cacheDir == cacheDir && r.value.nJobs == nJobs
    ensures r.Success? ==> r.value.CacheState() == InitialCache(cacheDir, snapshot) && !r.value.CacheDirty()
    ensures r.Success? && Truthy(cacheDir) ==>
              fresh(r.value.cacheManager)
              && r.value.cacheManager.persisted == (if snapshot.Saved? then Some(snapshot.entries) else None)
  {
    var cacheManager: CacheManager? := null;
    if Truthy(cacheDir) {
      cacheManager :- OpenCache(cacheDir.value, snapshot);
    }
    var selector := new FileSelector(cacheDir, nJobs, cacheManager);
    return Success(selector);
  }

  /** `select_diverse_files`: `n_select` must lie in [1, len(file_paths)],
      checked before any hashing; then a fresh selector makes the selection
      from the cache file's entries (if there is a cache directory). The
      outcome is that of `FileSelector.select` on the merged hashes `m`:
      CacheError for an unreadable cache file, ValueError for a pool of no
      worker, InsufficientFilesError iff `m` has fewer than `n_select`
      keys, and otherwise the greedy run over the keys of `m` from the
      drawn first pick, mapped back to `filePaths`. A successful result has
      exactly `n_select` distinct indices into `filePaths`, each with its
      path, and as many scores, the first infinite. */
  method SelectDiverseFiles(filePaths: seq<Path>, nSelect: int, cacheDir: Option<string>, nJobs: int,
                            snapshot: Snapshot, world: World, elapsed: real)
    returns (r: Result<SelectionResult>, ghost positions: seq<nat>)
    requires world.Wf()
    ensures nSelect <= 0 ==> r == Failure(ValueError("n_select must be positive, got " + IntToString(nSelect)))
    ensures 0 < nSelect && nSelect > |filePaths| ==>
              r == Failure(ValueError("n_select (" + IntToString(nSelect) + ") cannot be greater than number of files ("
                                      + IntToString(|filePaths|) + ")"))
    ensures 1 <= nSelect <= |filePaths| && Truthy(cacheDir) && snapshot.Corrupt? ==>
              r == Failure(CacheError("Failed to load cache from " + CacheFilePath(cacheDir.value) + ": " + snapshot.reason))
    ensures var c := InitialCache(cacheDir, snapshot);
            var tc := ToCompute(Truthy(cacheDir), c, world.fs, filePaths);
            var m := MergedHashes(Truthy(cacheDir), c, world.fs, filePaths, nJobs, world);
            var hashingFails := tc != [] && Workers(nJobs, world.cpuCount) <= 0;
            1 <= nSelect <= |filePaths| && !(Truthy(cacheDir) && snapshot.Corrupt?) ==>
              && (hashingFails ==> r == Failure(ValueError("max_workers must be greater than 0")))
              && (!hashingFails ==>
                    Outcome(r, positions, filePaths, m, nSelect, world.diff, world.draw, Truthy(cacheDir), elapsed))
    ensures r.Success? ==> 1 <= nSelect <= |filePaths|
    ensures r.Success? ==>
              && |r.value.indices| == |r.value.filePaths| == nSelect
              && Distinct(r.value.indices)
              && (forall j | 0 <= j < nSelect ::
                    r.value.indices[j] < |filePaths| && r.value.filePaths[j] == filePaths[r.value.indices[j]])
              && r.value.diversityScores.Some? && |r.value.diversityScores.value| == nSelect
              && r.value.diversityScores.value[0] == Inf
  {
    positions := [];
    if nSelect <= 0 {
      return Failure(ValueError("n_select must be positive, got " + IntToString(nSelect))), positions;
    }
    if nSelect > |filePaths| {
      return Failure(ValueError("n_select (" + IntToString(nSelect) + ") cannot be greater than number of files ("
                                + IntToString(|filePaths|) + ")")), positions;
    }
    var created := NewFileSelector(cacheDir, nJobs, snapshot);
    if created.Failure? {
      return Failure(created.error), positions;
    }
    var selector := created.value;
    r, positions := selector.Select(filePaths, nSelect, world, elapsed);
    if r.Success? {
      SelectionShape(r.value, positions, filePaths, selector.hashDict, world.diff,
                     world.draw(|selector.hashDict.keys|), nSelect, Truthy(cacheDir), elapsed);
    }
  }
}
