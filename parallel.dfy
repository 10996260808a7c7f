/** Batch hash computation and batch distances (src/tlsh_selector/parallel.py).
    The process pool is modelled by the order in which its tasks complete:
    one task per input path, each completing exactly once. */
module Parallel {
  import opened Base
  import opened Dicts

  /** `compute_tlsh_hash` for every path: its hash, or the exception it raises. */
  type HashOracle = Path -> Result<Hash>

  /** `_compute_hash_worker`: the path with its hash, or with `None` when
      hashing raised; it never raises itself. */
  function ComputeHashWorker(p: Path, hashOf: HashOracle): (r: (Path, Option<Hash>))
    ensures r.0 == p
    ensures r.1.Some? <==> hashOf(p).Success?
    ensures r.1.Some? ==> r.1.value == hashOf(p).value
  {
    match hashOf(p)
    case Success(h) => (p, Some(h))
    case Failure(_) => (p, None)
  }

  /** The paths of `paths` whose hash succeeds, in order, repeats kept. */
  function Succeeded(paths: seq<Path>, hashOf: HashOracle): (r: seq<Path>)
    ensures forall p :: p in r <==> p in paths && hashOf(p).Success?
    decreases |paths|
  {
    if paths == [] then []
    else
      var init := paths[..|paths| - 1];
      var last := paths[|paths| - 1];
      assert forall p :: p in paths <==> p in init || p == last;
      Succeeded(init, hashOf) + if hashOf(last).Success? then [last] else []
  }

  /** The hash of every path of `paths` whose hash succeeds. */
  function HashesOf(paths: seq<Path>, hashOf: HashOracle): map<Path, Hash> {
    map p | p in paths && hashOf(p).Success? :: hashOf(p).value
  }

  lemma HashesOfSnoc(paths: seq<Path>, p: Path, hashOf: HashOracle)
    ensures HashesOf(paths + [p], hashOf)
         == if hashOf(p).Success? then HashesOf(paths, hashOf)[p := hashOf(p).value] else HashesOf(paths, hashOf)
  {
    assert forall q :: q in paths + [p] <==> q in paths || q == p;
  }

  /** The branch `n_jobs == 1`: hash the paths one after the other, skipping
      those that fail. */
  method ComputeHashesSequential(paths: seq<Path>, hashOf: HashOracle) returns (results: Dict)
    ensures results.Wf()
    ensures forall p :: p in results.vals <==> p in paths && hashOf(p).Success?
    ensures forall p | p in results.vals :: results.vals[p] == hashOf(p).value
    ensures results.vals == HashesOf(paths, hashOf)
    ensures results.keys == Dedup(Succeeded(paths, hashOf))
  {
    results := Empty();
    for i := 0 to |paths|
      invariant results.Wf()
      invariant results.vals == HashesOf(paths[..i], hashOf)
      invariant results.keys == Dedup(Succeeded(paths[..i], hashOf))
    {
      var filePath := paths[i];
      assert paths[..i + 1] == paths[..i] + [filePath];
      HashesOfSnoc(paths[..i], filePath, hashOf);
      SucceededSnoc(paths[..i], filePath, hashOf);
      match hashOf(filePath)
      case Success(hashValue) =>
        results := Put(results, filePath, hashValue);
      case Failure(_) =>
    }
    assert paths[..|paths|] == paths;
  }

  lemma SucceededSnoc(paths: seq<Path>, p: Path, hashOf: HashOracle)
    ensures Dedup(Succeeded(paths + [p], hashOf))
         == if hashOf(p).Success? && p !in Dedup(Succeeded(paths, hashOf))
            then Dedup(Succeeded(paths, hashOf)) + [p]
            else Dedup(Succeeded(paths, hashOf))
  {
    var s := paths + [p];
    assert s[..|s| - 1] == paths && s[|s| - 1] == p;
    if hashOf(p).Success? {
      var t := Succeeded(paths, hashOf) + [p];
      assert t[..|t| - 1] == Succeeded(paths, hashOf);
    } else {
      assert Succeeded(s, hashOf) == Succeeded(paths, hashOf);
    }
  }

  /** `order` is a completion order of `m` tasks: each task `0 .. m - 1`
      completes exactly once. */
  predicate IsPermutation(order: seq<nat>, m: nat) {
    |order| == m
    && (forall i | 0 <= i < m :: order[i] < m)
    && (forall j: nat | j < m :: j in order)
    && Distinct(order)
  }

  /** The paths of the tasks in the order they complete. */
  function Reorder(paths: seq<Path>, order: seq<nat>): (r: seq<Path>)
    requires IsPermutation(order, |paths|)
    ensures |r| == |paths|
    ensures forall p :: p in r <==> p in paths
  {
    var r := seq(|order|, i requires 0 <= i < |order| => paths[order[i]]);
    assert forall p | p in paths :: p in r by {
      forall p | p in paths ensures p in r {
        var j: nat :| j < |paths| && paths[j] == p;
        assert j in order;
        var i :| 0 <= i < |order| && order[i] == j;
        assert r[i] == p;
      }
    }
    r
  }

  /** The pool branch: one `_compute_hash_worker` task per path, results
      taken in completion order. */
  method ComputeHashesPool(paths: seq<Path>, hashOf: HashOracle, order: seq<nat>) returns (results: Dict)
    requires IsPermutation(order, |paths|)
    ensures results.Wf()
    ensures results.vals == HashesOf(paths, hashOf)
    ensures results.keys == Dedup(Succeeded(Reorder(paths, order), hashOf))
  {
    var completed := Reorder(paths, order);
    results := CollectWorkerResults(completed, hashOf);
    HashesOfSameElements(completed, paths, hashOf);
  }

  /** The loop over `as_completed`: each worker result is kept unless its
      hash is `None`. */
  method CollectWorkerResults(completed: seq<Path>, hashOf: HashOracle) returns (results: Dict)
    ensures results.Wf()
    ensures results.vals == HashesOf(completed, hashOf)
    ensures results.keys == Dedup(Succeeded(completed, hashOf))
  {
    results := Empty();
    for i := 0 to |completed|
      invariant results.Wf()
      invariant results.vals == HashesOf(completed[..i], hashOf)
      invariant results.keys == Dedup(Succeeded(completed[..i], hashOf))
    {
      var (filePath, hashValue) := ComputeHashWorker(completed[i], hashOf);
      assert completed[..i + 1] == completed[..i] + [filePath];
      HashesOfSnoc(completed[..i], filePath, hashOf);
      SucceededSnoc(completed[..i], filePath, hashOf);
      if hashValue.Some? {
        results := Put(results, filePath, hashValue.value);
      }
    }
    assert completed[..|completed|] == completed;
  }

  lemma HashesOfSameElements(a: seq<Path>, b: seq<Path>, hashOf: HashOracle)
    requires forall p :: p in a <==> p in b
    ensures HashesOf(a, hashOf) == HashesOf(b, hashOf)
  {
  }

  /** The pool size `compute_hashes_parallel` asks for: `n_jobs`, with -1
      meaning every CPU. */
  function Workers(nJobs: int, cpuCount: nat): (w: int)
    ensures w <= 0 <==> nJobs == 0 || nJobs < -1 || (nJobs == -1 && cpuCount == 0)
    ensures w == 1 <==> nJobs == 1 || (nJobs == -1 && cpuCount == 1)
    ensures w > 1 ==> w == nJobs || (nJobs == -1 && w == cpuCount)
  {
    if nJobs == -1 then cpuCount else nJobs
  }

  /** `compute_hashes_parallel`. Sequential for one worker, a pool
      otherwise; a pool of no worker (`n_jobs` of 0 or below -1) makes
      `ProcessPoolExecutor` raise ValueError. Per-file failures never
      escape: a path is in the result iff its hash succeeds, with that hash,
      on both branches; only the key order differs. */
  method ComputeHashesParallel(paths: seq<Path>, nJobs: int, hashOf: HashOracle, cpuCount: nat, order: seq<nat>)
    returns (r: Result<Dict>)
    requires cpuCount >= 1
    requires IsPermutation(order, |paths|)
    ensures r.Failure? <==> Workers(nJobs, cpuCount) <= 0
    ensures r.Failure? ==> r.error == ValueError("max_workers must be greater than 0")
    ensures r.Success? ==> r.value.Wf() && r.value.vals == HashesOf(paths, hashOf)
    ensures r.Success? ==> forall p :: p in r.value.vals <==> p in paths && hashOf(p).Success?
    ensures r.Success? && Workers(nJobs, cpuCount) == 1 ==> r.value.keys == Dedup(Succeeded(paths, hashOf))
    ensures r.Success? && Workers(nJobs, cpuCount) > 1
            ==> r.value.keys == Dedup(Succeeded(Reorder(paths, order), hashOf))
  {
    var workers := Workers(nJobs, cpuCount);
    if workers == 1 {
      var results := ComputeHashesSequential(paths, hashOf);
      return Success(results);
    }
    if workers <= 0 {
      return Failure(ValueError("max_workers must be greater than 0"));
    }
    var results := ComputeHashesPool(paths, hashOf, order);
    return Success(results);
  }

  /** The sequential branch of `compute_distances_parallel`: the distance
      from `currentHash` to each candidate's hash, in the candidates' order,
      or KeyError for the first candidate without a hash. */
  function ComputeDistancesParallel(currentHash: Hash, candidatePaths: seq<Path>, hashDict: map<Path, Hash>,
                                    nJobs: int, diff: (Hash, Hash) -> nat): (r: Result<seq<nat>>)
    requires |candidatePaths| < 1000 || nJobs == 1
    ensures r.Failure? <==> exists i | 0 <= i < |candidatePaths| :: candidatePaths[i] !in hashDict
    ensures r.Failure? ==>
              exists i | 0 <= i < |candidatePaths| ::
                && candidatePaths[i] !in hashDict && r.error == KeyError(candidatePaths[i])
                && forall j | 0 <= j < i :: candidatePaths[j] in hashDict
    ensures r.Success? ==>
              && |r.value| == |candidatePaths|
              && forall i | 0 <= i < |r.value| :: r.value[i] == diff(currentHash, hashDict[candidatePaths[i]])
    decreases |candidatePaths|
  {
    if candidatePaths == [] then Success([])
    else if candidatePaths[0] !in hashDict then Failure(KeyError(candidatePaths[0]))
    else
      var rest := ComputeDistancesParallel(currentHash, candidatePaths[1..], hashDict, nJobs, diff);
      if rest.Failure? then
        Failure(rest.error)
      else
        Success([diff(currentHash, hashDict[candidatePaths[0]])] + rest.value)
  }
}
