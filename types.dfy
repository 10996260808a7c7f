/** `SelectionResult` (src/tlsh_selector/types.py): the immutable record a
    selection returns, with its list-like access to the selected indices and
    its export to a dictionary. */
module Types {
  import opened Base
  import opened Dicts

  /** A diversity score: `float('inf')` for the first pick, otherwise the
      TLSH distance (an integer) from the pick to its nearest earlier pick. */
  datatype Score = Inf | Fin(d: nat)

  /** A value of the dictionary `to_dict` builds. */
  datatype Value =
    | IntList(ints: seq<nat>)
    | StrList(strs: seq<string>)
    | HashTable(table: Dict)
    | ScoreList(scores: seq<Score>)
    | Number(x: real)

  const IndicesKey := "indices"
  const FilePathsKey := "file_paths"
  const HashesKey := "hashes"
  const ScoresKey := "diversity_scores"
  const ElapsedKey := "elapsed_time"

  /** Python's normalisation of a slice bound for a sequence of length
      `len` (step 1): an omitted bound takes its default, a negative one
      counts from the end, and the result is clamped to [0, len]. */
  function SliceBound(bound: Option<int>, default: nat, len: nat): (b: nat)
    requires default <= len
    ensures b <= len
    ensures bound.None? ==> b == default
    ensures bound.Some? && 0 <= bound.value <= len ==> b == bound.value
    ensures bound.Some? && 0 <= len + bound.value && bound.value < 0 ==> b == len + bound.value
    ensures bound.Some? && len + bound.value < 0 ==> b == 0
    ensures bound.Some? && bound.value > len ==> b == len
  {
    match bound
    case None => default
    case Some(i) =>
      var j := if i < 0 then i + len else i;
      if j < 0 then 0 else if j > len then len else j
  }

  /** The forward iterator `iter(self.indices)`: the items and the position
      of the next one. */
  datatype Iterator = Iterator(items: seq<nat>, pos: nat) {
    /** `next(it)`: the next item and the advanced iterator, or `None`
        (StopIteration) once the items are exhausted. */
    function Next(): (Option<nat>, Iterator) {
      if pos < |items| then (Some(items[pos]), Iterator(items, pos + 1)) else (None, this)
    }

    /** What `list(it)` collects by calling `Next` until it stops. */
    function Drain(): seq<nat>
      decreases |items| - pos
    {
      match Next()
      case (None, _) => []
      case (Some(x), rest) => [x] + rest.Drain()
    }
  }

  datatype SelectionResult = SelectionResult(
    indices: seq<nat>,
    filePaths: seq<Path>,
    hashes: Option<Dict>,
    diversityScores: Option<seq<Score>>,
    elapsedTime: Option<real>)
  {
    /** `__len__`: the number of indices, which is also the number of items
        iteration yields. */
    function Len(): (n: nat)
      ensures n == |indices|
      ensures n == |Iter().Drain()|
    {
      DrainFrom(indices, 0);
      |indices|
    }

    /** `__getitem__` with an integer key: Python tuple indexing, where a
        negative key counts from the end and any other key raises IndexError. */
    function GetItem(key: int): (r: Result<nat>)
      ensures r.Success? <==> 0 <= Len() + key && key < Len()
      ensures 0 <= key < Len() ==> r.value == indices[key]
      ensures 0 <= Len() + key && key < 0 ==> r.value == indices[Len() + key]
      ensures r.Failure? ==> r.error == IndexError
    {
      if 0 <= key < |indices| then Success(indices[key])
      else if -|indices| <= key < 0 then Success(indices[|indices| + key])
      else Failure(IndexError)
    }

    /** `__getitem__` with a slice key `start:stop` (step 1). */
    function Slice(start: Option<int>, stop: Option<int>): (r: seq<nat>)
      ensures |r| <= Len()
      ensures |r| == Max(0, SliceBound(stop, |indices|, |indices|) - SliceBound(start, 0, |indices|))
      ensures forall j | 0 <= j < |r| ::
                SliceBound(start, 0, |indices|) + j < |indices| && r[j] == indices[SliceBound(start, 0, |indices|) + j]
      ensures start.Some? && stop.Some? && 0 <= start.value <= stop.value <= |indices|
              ==> r == indices[start.value..stop.value]
    {
      var lo := SliceBound(start, 0, |indices|);
      var hi := SliceBound(stop, |indices|, |indices|);
      if lo < hi then indices[lo..hi] else []
    }

    /** `__iter__`: an iterator that yields exactly the indices, in order. */
    function Iter(): (it: Iterator)
      ensures it.Drain() == indices
    {
      DrainFrom(indices, 0);
      Iterator(indices, 0)
    }

    /** `to_dict`: always the indices and the file paths as lists; each of
        the hashes, the diversity scores and the elapsed time only when it
        is set. */
    function ToDict(): (d: map<string, Value>)
      ensures IndicesKey in d && d[IndicesKey] == IntList(indices)
      ensures FilePathsKey in d && d[FilePathsKey] == StrList(filePaths)
      ensures HashesKey in d <==> hashes.Some?
      ensures hashes.Some? ==> d[HashesKey] == HashTable(hashes.value)
      ensures ScoresKey in d <==> diversityScores.Some?
      ensures diversityScores.Some? ==> d[ScoresKey] == ScoreList(diversityScores.value)
      ensures ElapsedKey in d <==> elapsedTime.Some?
      ensures elapsedTime.Some? ==> d[ElapsedKey] == Number(elapsedTime.value)
      ensures d.Keys <= {IndicesKey, FilePathsKey, HashesKey, ScoresKey, ElapsedKey}
    {
      var base := map[IndicesKey := IntList(indices), FilePathsKey := StrList(filePaths)];
      var withHashes := if hashes.Some? then base[HashesKey := HashTable(hashes.value)] else base;
      var withScores :=
        if diversityScores.Some? then withHashes[ScoresKey := ScoreList(diversityScores.value)]
        else withHashes;
      if elapsedTime.Some? then withScores[ElapsedKey := Number(elapsedTime.value)] else withScores
    }
  }

  /** Reading a `SelectionResult` back from a dictionary of the shape
      `to_dict` produces; `None` if a required key is missing or a value
      has the wrong kind. */
  function FromDict(d: map<string, Value>): Option<SelectionResult> {
    if IndicesKey in d && d[IndicesKey].IntList? && FilePathsKey in d && d[FilePathsKey].StrList?
       && (HashesKey in d ==> d[HashesKey].HashTable?)
       && (ScoresKey in d ==> d[ScoresKey].ScoreList?)
       && (ElapsedKey in d ==> d[ElapsedKey].Number?)
    then
      Some(SelectionResult(
        d[IndicesKey].ints,
        d[FilePathsKey].strs,
        if HashesKey in d then Some(d[HashesKey].table) else None,
        if ScoresKey in d then Some(d[ScoresKey].scores) else None,
        if ElapsedKey in d then Some(d[ElapsedKey].x) else None))
    else None
  }

  /** `to_dict` loses nothing: every field can be read back from it. */
  lemma ToDictRoundTrip(r: SelectionResult)
    ensures FromDict(r.ToDict()) == Some(r)
  {
  }

  /** Iterating over the result yields exactly the indices, in order, and
      as many of them as `len` reports. */
  lemma {:induction false} IterYieldsIndices(r: SelectionResult)
    ensures r.Iter().Drain() == r.indices
    ensures |r.Iter().Drain()| == r.Len()
  {
    DrainFrom(r.indices, 0);
  }

  lemma {:induction false} DrainFrom(s: seq<nat>, pos: nat)
    requires pos <= |s|
    ensures Iterator(s, pos).Drain() == s[pos..]
    decreases |s| - pos
  {
    if pos < |s| {
      DrainFrom(s, pos + 1);
      assert s[pos..] == [s[pos]] + s[pos + 1..];
    }
  }

  /** The element `result[i]` and the slice `result[i:i+1]` agree, for
      negative positions as well. */
  lemma SliceAgreesWithGetItem(r: SelectionResult, i: int)
    requires 0 <= r.Len() + i && i < r.Len() && i != -1
    ensures r.Slice(Some(i), Some(i + 1)) == [r.GetItem(i).value]
  {
  }

  /** `result[-1:]` is the last index on its own. */
  lemma LastSlice(r: SelectionResult)
    requires r.Len() > 0
    ensures r.Slice(Some(-1), None) == [r.GetItem(-1).value]
  {
  }

  /** `result[:k] + result[k:] == result[:]` and that is the whole of `indices`,
      whatever the integer `k`. */
  lemma SliceSplit(r: SelectionResult, k: int)
    ensures r.Slice(None, Some(k)) + r.Slice(Some(k), None) == r.Slice(None, None)
    ensures r.Slice(None, None) == r.indices
  {
    var n := |r.indices|;
    var b := SliceBound(Some(k), 0, n);
    assert SliceBound(Some(k), n, n) == b;
    assert r.indices[..b] + r.indices[b..] == r.indices;
  }
}
