# tlsh-selector in Dafny

A model of the core of tlsh-selector. The package picks the most diverse
`n_select` files out of a list. Every file gets a TLSH fuzzy hash. The first
pick is drawn at random. Each later pick is the file whose distance
(`tlsh.diff`) to its nearest earlier pick is the largest (greedy max-min, or
farthest-point, selection). Hashes can be cached in a directory. A cached hash is no longer used
once the file's modification time or size changes: the stale entry stays in
memory and in the cache file, and a lookup ignores it.

The modules follow the package's files:

- `Base` (`base.dfy`): the package's errors as one datatype, `Option` and
  `Result`, and small sequence and set facts.
- `Dicts` (`dicts.dfy`): Python's insertion-ordered `dict` from paths to
  hashes. Key order matters, because the candidate list of a selection is
  `list(hash_dict.keys())`.
- `Types` (`types.dfy`): `SelectionResult`, with length, indexing, slicing,
  iteration and `to_dict`.
- `HashUtils` (`hash_utils.dfy`): `compute_tlsh_hash` over an abstract TLSH
  function, and the class `CacheManager`. Its fields are the entries in
  memory, the dirty flag and, as a ghost field, the cache file on disk.
- `Parallel` (`parallel.dfy`): the hash worker, `compute_hashes_parallel`
  (the sequential branch, and the pool branch in a given completion order),
  and the sequential branch of `compute_distances_parallel`.
- `MaxMin` (`maxmin.dfy`): what a greedy run is, as a specification. It says
  which position each round must pick (largest nearest-pick distance, lowest
  position on ties) and what the diversity scores are. It also holds the
  lemmas about runs, and a worked example of ten files on a line.
- `Selector` (`selector.dfy`): the class `FileSelector` and
  `select_diverse_files`. This includes the merge of cached and computed
  hashes, the in-place greedy loop over a `min_distances` array (proved to
  produce a `MaxMin` run), and the mapping of picks back to indices of the
  caller's list.

The parts the package cannot decide itself are parameters:

- the files' contents and `os.stat` metadata;
- TLSH's `hash` and `diff`;
- `cpu_count`;
- the order in which pool tasks complete;
- the `random.randint` draw of the first pick;
- the elapsed time.

`Selector.World` bundles all of them except the elapsed time, which is a separate `elapsed` parameter of `Select` and `SelectDiverseFiles`.

The package's test `test_insufficient_files` (tests/test_selector.py:79-82) expects InsufficientFilesError for `n_select=20` over ten files, but `select_diverse_files` raises ValueError for that first (src/tlsh_selector/selector.py:65-68); the model follows the code.

## Model

| member | source | states |
|---|---|---|
| Dicts.Put | src/tlsh_selector/selector.py:212 | `d[k] = v` sets the value; a new key is appended, an existing key keeps its place |
| Dicts.Dedup | src/tlsh_selector/selector.py:160 | the key order of a dict filled from a sequence: no repeats, exactly the sequence's elements |
| Dicts.DedupSnoc | src/tlsh_selector/selector.py:160 | inserting one more key appends it unless it is already present |
| Dicts.Update | src/tlsh_selector/selector.py:226 | `hash_dict.update(computed)`: the values are the union, with the update winning; the old keys stay first; with disjoint keys the new keys follow in their own order |
| Types.SliceBound | src/tlsh_selector/types.py:42-44 | Python's slice-bound normalisation: default when omitted, negative counts from the end, clamped to the length |
| Types.SelectionResult.Len | src/tlsh_selector/types.py:46-48 | `len(result)` is the number of indices, and the number of items iteration yields |
| Types.SelectionResult.Iter | src/tlsh_selector/types.py:38-40 | `iter(result)` yields exactly the indices, in order |
| Types.SelectionResult.GetItem | src/tlsh_selector/types.py:42-44 | `result[i]` is `indices[i]`, negative `i` counts from the end, anything else is IndexError |
| Types.SelectionResult.Slice | src/tlsh_selector/types.py:42-44 | `result[a:b]` holds the indices from the normalised start up to the normalised stop (none if the stop is not past the start); for `0 <= a <= b <= len(result)` it is `indices[a:b]` |
| Types.SelectionResult.ToDict | src/tlsh_selector/types.py:54-71 | `indices` and `file_paths` are always present as lists; `hashes`, `diversity_scores` and `elapsed_time` are present iff set; no other key |
| Types.ToDictRoundTrip | src/tlsh_selector/types.py:54-71 | the dictionary loses nothing: reading it back gives the same result |
| Types.IterYieldsIndices | src/tlsh_selector/types.py:38-48 | `list(result)` is exactly `indices`, in order, and has `len(result)` items |
| Types.DrainFrom | src/tlsh_selector/types.py:38-40 | an iterator at position `k` yields exactly the items from `k` on |
| Types.SliceAgreesWithGetItem | src/tlsh_selector/types.py:42-44 | `result[i:i+1] == [result[i]]` for every valid position `i` except -1, negative ones included (`result[-1:0]` is empty) |
| Types.LastSlice | src/tlsh_selector/types.py:42-44 | `result[-1:]` is the last index alone |
| Types.SliceSplit | src/tlsh_selector/types.py:42-44 | `result[:k] + result[k:]` is the whole of `indices` for every integer `k` |
| HashUtils.ComputeTlshHash | src/tlsh_selector/hash_utils.py:14-37 | succeeds iff the file can be read and TLSH gives a non-empty digest, which is then the hash; every failure is InvalidHashError |
| HashUtils.IsCacheValid | src/tlsh_selector/hash_utils.py:113-132 | `_is_cache_valid`: the path has an entry, the file exists, and its current mtime and size equal the recorded ones; a missing file is simply not valid |
| HashUtils.Lookup | src/tlsh_selector/hash_utils.py:113-146 | `get(p)` answers the stored hash iff `p` has an entry, the file exists and its current mtime and size are the recorded ones |
| HashUtils.StoreHash | src/tlsh_selector/hash_utils.py:156-165 | what `set(p, h)` does to the entries: an existing file's entry records `h` with its current metadata; every other entry stays; nothing is added for a vanished file |
| HashUtils.CacheFilePath | src/tlsh_selector/hash_utils.py:63 | the cache file is named `tlsh_cache.pickle` and lies directly inside the cache directory: the path is the directory followed by `/tlsh_cache.pickle`, with exactly one `/` between them: the path is 17 characters longer than the directory iff the directory already ends in `/`, and 18 otherwise |
| HashUtils.CacheManager.Get | src/tlsh_selector/hash_utils.py:134-146 | answers the stored hash exactly while the entry is valid for the current metadata |
| HashUtils.ValidHashes | src/tlsh_selector/hash_utils.py:167-178 | exactly the paths `get` answers, each with its stored hash; a subset of the entries |
| HashUtils.SetThenGet | src/tlsh_selector/hash_utils.py:148-163 | after `set(p, h)` on an existing file, `get(p) == h` while the metadata is unchanged |
| HashUtils.SetThenModify | src/tlsh_selector/hash_utils.py:113-163 | after `set(p, h)`, a change of size or mtime, or removing the file, makes `get(p)` answer `None` |
| HashUtils.SetKeepsOthers | src/tlsh_selector/hash_utils.py:156-162 | `set(p, ·)` leaves every other path's entry and `get` answer as they were |
| HashUtils.SetOverwrites | src/tlsh_selector/hash_utils.py:158-162 | a second `set` on the same path replaces the first |
| HashUtils.SetOnMissingFile | src/tlsh_selector/hash_utils.py:164-165 | `set` on a vanished file leaves the entries unchanged |
| HashUtils.CacheManager.constructor | src/tlsh_selector/hash_utils.py:48-82 | the entries in memory are the cache file's (none without a file), and nothing is dirty |
| HashUtils.CacheManager.Set | src/tlsh_selector/hash_utils.py:148-165 | the entry is recorded with the file's metadata and the cache becomes dirty; on a vanished file neither the entries nor the flag change |
| HashUtils.CacheManager.GetAllHashes | src/tlsh_selector/hash_utils.py:167-178 | the loop returns exactly `ValidHashes`: the entries `get` answers, with their hashes, never a stale one |
| HashUtils.CacheManager.Save | src/tlsh_selector/hash_utils.py:84-98 | clean: nothing happens; dirty: the cache file becomes the entries and the flag is cleared (also `save` and `__exit__`) |
| HashUtils.CacheManager.Clear | src/tlsh_selector/hash_utils.py:180-184 | no entries, the empty cache is written at once, not dirty, and `get` answers `None` for every path |
| HashUtils.OpenCache | src/tlsh_selector/hash_utils.py:60-82 | CacheError, with the source's message naming the cache file, iff the cache file cannot be read; otherwise the entries are the file's and nothing is dirty |
| Parallel.ComputeHashWorker | src/tlsh_selector/parallel.py:12-26 | returns the path with its hash when hashing succeeds and with `None` otherwise; never fails |
| Parallel.Succeeded | src/tlsh_selector/parallel.py:52-57 | the paths kept are exactly those whose hash succeeds |
| Parallel.ComputeHashesSequential | src/tlsh_selector/parallel.py:49-58 | the result holds exactly the paths whose hash succeeds, each with its hash, keyed in order of first success |
| Parallel.Reorder | src/tlsh_selector/parallel.py:63-69 | taking the tasks in completion order visits every path, and only those |
| Parallel.CollectWorkerResults | src/tlsh_selector/parallel.py:69-72 | the non-`None` worker results, keyed in completion order |
| Parallel.ComputeHashesPool | src/tlsh_selector/parallel.py:61-74 | as a map, the pool's result equals the sequential one; only the key order follows completion |
| Parallel.HashesOfSameElements | src/tlsh_selector/parallel.py:61-74 | the hash map depends only on which paths are hashed, not on their order |
| Parallel.Workers | src/tlsh_selector/parallel.py:45-62 | the pool size: no worker iff `n_jobs` is 0, below -1, or -1 with no CPU; one worker iff `n_jobs` is 1, or -1 with one CPU |
| Parallel.ComputeHashesParallel | src/tlsh_selector/parallel.py:29-74 | ValueError iff the pool would have no worker; otherwise every path is in the result iff its hash succeeds, with that hash, on both branches |
| Parallel.ComputeDistancesParallel | src/tlsh_selector/parallel.py:123-125 | KeyError, naming the first candidate without a hash, iff some candidate has none; otherwise one distance per candidate, in the candidates' order, from the current hash to the candidate's hash |
| MaxMin.Space.MinDist | src/tlsh_selector/selector.py:281-293 | a candidate's `min_distances` entry: the distance to its nearest pick so far, as a fold of `min` over the picks (see `MaxMin.MinDistIsNearest`) |
| MaxMin.Space.IsChoice | src/tlsh_selector/selector.py:294-298 | the round's pick: an unselected position with the largest nearest-pick distance, and the lowest such position on a tie (the scan's strict `>`) |
| MaxMin.Space.Scores | src/tlsh_selector/selector.py:266-303 | one score per pick: infinite for the first, then the pick's distance to its nearest earlier pick |
| MaxMin.MinDistIsNearest | src/tlsh_selector/selector.py:289-293 | the folded minimum is no larger than the distance to any pick, and equals the distance to one of them |
| MaxMin.MinDistSnoc | src/tlsh_selector/selector.py:290-293 | a new pick lowers each candidate's minimum to the smaller of the old minimum and the new distance |
| MaxMin.ScoresSnoc | src/tlsh_selector/selector.py:301-303 | each round appends the chosen pick's minimum distance to the scores |
| MaxMin.RunSnoc | src/tlsh_selector/selector.py:296-302 | appending the choice of the round extends a run |
| MaxMin.RunDistinct | src/tlsh_selector/selector.py:282-304 | the picks of a run are pairwise distinct and no more than the candidates |
| MaxMin.RunPrefix | src/tlsh_selector/selector.py:273-304 | every prefix of a run is a run |
| MaxMin.ChoiceUnique | src/tlsh_selector/selector.py:296-298 | the strict `>` leaves at most one choice per round |
| MaxMin.RunUnique | src/tlsh_selector/selector.py:262-306 | once the first pick is drawn the selection is determined: two runs of equal length from the same first pick are equal |
| MaxMin.ScoresAreNearestDistances | src/tlsh_selector/selector.py:281-303 | each later score is at most the distance to every earlier pick and equals the distance to one of them |
| MaxMin.ScoresNonIncreasing | src/tlsh_selector/selector.py:290-304 | the scores after the first never increase |
| MaxMin.AllTiedPicksLowest | src/tlsh_selector/selector.py:296-298 | when all distances are equal (to any one value), a round's choice is exactly the lowest unselected position |
| MaxMin.AllTiedScores | src/tlsh_selector/selector.py:266-303 | when every distance is the same `k` (0 for identical files), every score after the first is `k` |
| MaxMin.Line | src/tlsh_selector/selector.py:235-306 | not code of these lines but an example input for them: ten candidates, every one with a hash |
| MaxMin.LineDist | src/tlsh_selector/selector.py:287 | not code of this line but the example's `tlsh.diff`: the distance between positions `i` and `j` is `abs(i - j)` |
| MaxMin.LineNearest | src/tlsh_selector/selector.py:289-293 | in the example, the minimum distance to `[0]` is `u`, and to `[0, 9]` it is `min(u, 9 - u)` |
| MaxMin.LineFirstChoice | src/tlsh_selector/selector.py:296-298 | in the example, the round after pick 0 chooses 9 |
| MaxMin.LineSecondChoice | src/tlsh_selector/selector.py:296-298 | in the example, the next round chooses 4 over 5, which is just as far, because the lower position wins |
| MaxMin.LineRun | src/tlsh_selector/selector.py:262-304 | `[0, 9, 4]` is a run from 0 in the example |
| MaxMin.LineFirstScores | src/tlsh_selector/selector.py:266-303 | in the example, the scores of `[0, 9]` are infinity and 9 |
| MaxMin.LineScores | src/tlsh_selector/selector.py:266-303 | in the example, the scores of `[0, 9, 4]` are infinity, 9 and 4 |
| MaxMin.LineScenario | src/tlsh_selector/selector.py:235-306 | in the example, the only run of three picks from 0 is `[0, 9, 4]`, scored infinity, 9 and 4 |
| Selector.IsHit | src/tlsh_selector/selector.py:209-211 | `if cached_hash:`: the cache answers the path, and with a non-empty hash |
| Selector.ToCompute | src/tlsh_selector/selector.py:205-219 | `files_to_compute`: the cache misses when there is a cache, every path otherwise |
| Selector.HitPaths | src/tlsh_selector/selector.py:209-212 | exactly the paths the cache answers with a non-empty hash |
| Selector.CacheMisses | src/tlsh_selector/selector.py:209-214 | `files_to_compute` is exactly the paths the cache does not answer |
| Selector.CacheHits | src/tlsh_selector/selector.py:208-214 | the first pass holds exactly the cache hits, each with its cached hash |
| Selector.CacheHitsOrder | src/tlsh_selector/selector.py:208-212 | the cache hits are keyed in order of their first occurrence in `file_paths` |
| Selector.MergedHashes | src/tlsh_selector/selector.py:191-233 | what `_compute_or_load_hashes` returns: each path is taken from the cache or hashed, never both; a hit keeps its cached hash and is never recomputed; a hashed path is present iff hashing succeeds, with that hash; every key is an input path |
| Selector.StoreAll | src/tlsh_selector/selector.py:228-231 | the entries after the `set` calls: the old ones plus every computed path whose file exists |
| Selector.StoreAllEffect | src/tlsh_selector/selector.py:228-231 | every computed hash whose file exists is recorded in the cache with the file's metadata; every other entry stays |
| Selector.StoredHashesAreCached | src/tlsh_selector/selector.py:228-231 | after the `set` calls, `get` answers each computed hash as long as the files do not change |
| Selector.FoldStep | src/tlsh_selector/selector.py:289-293 | folding the current pick's distance turns the pending entry into the candidate's minimum over all picks |
| Selector.NextRound | src/tlsh_selector/selector.py:300-304 | after a pick, the folded entries are the next round's pending ones and the pick is marked selected |
| Selector.IndexOf | src/tlsh_selector/selector.py:174 | `list.index`: the first position holding the path |
| Selector.MapBack | src/tlsh_selector/selector.py:174 | each pick maps to an index of `file_paths` that holds its path, and no earlier index does |
| Selector.MapBackDistinct | src/tlsh_selector/selector.py:174 | distinct picks map back to distinct indices |
| Selector.SelectedPaths | src/tlsh_selector/selector.py:175 | one path per index: the path of `file_paths` at that index |
| Selector.SelectionShape | src/tlsh_selector/selector.py:168-189 | a selection for `n_select >= 1` has exactly `n_select` distinct indices into `file_paths`, each with its path, and as many scores, the first infinite |
| Selector.FileSelector.constructor | src/tlsh_selector/selector.py:103-122 | stores the settings and starts with an empty hash dict; a cache manager is present iff `cache_dir` is truthy |
| Selector.FileSelector.LoadFromCache | src/tlsh_selector/selector.py:207-214 | the loop gathers exactly the cache hits and exactly the misses, in order |
| Selector.FileSelector.StoreComputed | src/tlsh_selector/selector.py:228-231 | calls `set` for every computed hash in the dict's order; the cache file is untouched |
| Selector.FileSelector.ComputeOrLoadHashes | src/tlsh_selector/selector.py:191-233 | the result is `MergedHashes`; the cache receives exactly the computed hashes and becomes dirty iff it was or one of their files exists; the cache file is untouched; it fails only when there is something to hash and no worker, and then the cache is unchanged |
| Selector.FileSelector.HashMisses | src/tlsh_selector/selector.py:221-233 | nothing to hash leaves the hits as they are and the cache untouched; otherwise the computed hashes are appended after the hits and stored, and the cache becomes dirty iff it was or one of their files exists |
| Selector.FileSelector.GreedySelection | src/tlsh_selector/selector.py:235-306 | the array loop makes `max(n_select, 1)` picks (fewer only if candidates run out), each the max-min choice of its round with the lowest position winning ties, and reports the run's scores |
| Selector.FileSelector.ScanCandidates | src/tlsh_selector/selector.py:273-298 | one scan folds the current pick's distance into every unselected entry and finds the round's unique choice, or -1 when none is left |
| Selector.FileSelector.SelectAmongValid | src/tlsh_selector/selector.py:168-189 | the result carries the run over the valid paths, its scores, its first-occurrence indices (distinct) and their paths, the hashes iff there is a cache directory, and the elapsed time |
| Selector.FileSelector.Finish | src/tlsh_selector/selector.py:157-189 | the given hashes become `hash_dict`; InsufficientFilesError iff too few of them, before any selection; otherwise the selection from the drawn first pick, and the cache file is written iff the cache is dirty; the entries never change |
| Selector.FileSelector.Select | src/tlsh_selector/selector.py:124-189 | a hashing error leaves `hash_dict`, the cache and its file unchanged; otherwise `hash_dict` is `MergedHashes`, the cache holds the stored computed hashes, the outcome is InsufficientFilesError iff fewer valid files than requested and otherwise the greedy run over the dict's keys from the drawn first pick, mapped back; on success the cache file then holds the entries iff anything was dirty, and on failure it is untouched |
| Selector.FileSelector.ComputeHashes | src/tlsh_selector/selector.py:308-334 | the merged hashes, with the cache receiving the computed ones; afterwards nothing is dirty and the cache file holds the entries iff the cache was dirty or a computed file exists; an error changes nothing |
| Selector.FileSelector.GetCachedHashes | src/tlsh_selector/selector.py:336-348 | ValueError iff there is no cache directory; otherwise exactly the valid cache entries |
| Selector.FileSelector.ClearCache | src/tlsh_selector/selector.py:350-359 | ValueError iff there is no cache directory; otherwise the cache and its file are emptied |
| Selector.InitialCache | src/tlsh_selector/selector.py:119 | the entries a new selector starts with: the cache file's when `cache_dir` is truthy and the file is readable, none otherwise |
| Selector.NewFileSelector | src/tlsh_selector/selector.py:103-122 | CacheError, with the source's message, iff there is a cache directory whose file cannot be read; otherwise a fresh selector with a clean cache holding the file's entries, and the file as found |
| Selector.SelectDiverseFiles | src/tlsh_selector/selector.py:17-92 | ValueError with the source's messages when `n_select` is not in `[1, len(file_paths)]`, before any hashing; then CacheError iff the cache file cannot be read, the worker ValueError iff hashing needs a pool of no worker, InsufficientFilesError iff the merged hashes have fewer than `n_select` keys, and otherwise the greedy run over their keys from the drawn first pick: exactly `n_select` distinct indices, each with its path, and `n_select` scores, the first infinite |

## Left out

- Selector.SelectDiverseFiles, Selector.FileSelector.Select: `random.seed`, `np.random.seed` and `random.randint` are ambient random state. The first pick is a parameter `draw(n) < n`, so reproducibility appears only as `MaxMin.RunUnique`: equal draws give equal selections.
- Selector.FileSelector.Select: with no valid file and `n_select <= 0` (possible only through `FileSelector.select` directly), `random.randint(0, -1)` raises ValueError. The model and its contract (`Selector.Outcome`) fix the text of current Python versions, `empty range in randrange(0, 0)`. Older versions word it differently.
- `time.time` and `elapsed_time`: wall-clock floats. The elapsed time is a parameter copied into the result.
- Base.Error: InsufficientFilesError carries the two counts (valid files found, requested), not the formatted message text. KeyError carries the missing key.
- `tqdm` progress bars, `print` and the `verbose` flags: presentation only.
- numpy `float32` storage in `min_distances`: TLSH distances are small non-negative integers, held exactly as `nat`. `inf` and `-1` become `Unseen` and `Selected`, and `-inf` becomes `-1` in `ScanCandidates`.
- File I/O: `open`/`read` in `compute_tlsh_hash` (a content oracle), `os.stat` (a metadata map), `mkdir` and pickle/json serialisation. The cache file is a ghost field. A write failure in `_save_cache` (CacheError) is not modelled.
- HashUtils.CacheManager.constructor: requires a readable or absent cache file. The unreadable file and its CacheError are modelled by `HashUtils.OpenCache`. A readable file with malformed entries (the KeyError `_is_cache_valid` swallows) is not modelled: entries always have a hash, an mtime and a size.
- Each call sees one filesystem state (`world.fs`): a file cannot change between being read for hashing and the `os.stat` of the `set` that records its hash, nor during a `select`.
- HashUtils.CacheFilePath: `pathlib` normalisation of the cache directory (repeated or trailing separators, `.` parts) is not modelled beyond one trailing `/`. Only the default `format="pickle"` is modelled, so the file is always `tlsh_cache.pickle`; the `json` format is not. A failing `mkdir` of the cache directory is not modelled.
- Selector.SelectDiverseFiles: the cache file its temporary selector writes is not part of its contract. `Selector.FileSelector.Select` states it.
- HashUtils.Lookup: an `os.stat` error other than FileNotFoundError (which `_is_cache_valid` would let escape) is not modelled; a path is either present with its metadata or absent.
- The order of `CacheManager._cache` and of `get_all_hashes`' result is not modelled, because these are maps. The key order of `to_dict` is not modelled either.
- Types.SelectionResult.Slice: only steps of 1 are modelled. `__repr__` is not modelled.
- `ProcessPoolExecutor`, `as_completed` and `mp.cpu_count`: concurrency. The pool is modelled by a completion order (a permutation of the tasks), and `cpu_count` is a parameter.
- Parallel.ComputeDistancesParallel: only the sequential branch (fewer than 1000 candidates, or `n_jobs == 1`), hence its precondition. The parallel branch appends chunk results in completion order. The selector never calls it.
- The pool branch's behaviour for duplicate input paths is modelled as one task per listed path, which is what the futures dictionary does.
- src/tlsh_selector/exceptions.py and src/tlsh_selector/__init__.py: class declarations and re-exports only.
