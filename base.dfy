/** Shared vocabulary: paths and hashes, the optional and error-carrying
    wrappers used in place of Python's None and exceptions, and the error
    kinds the package raises. */
module Base {

  /** A file path, as the caller supplies it (never normalised). */
  type Path = string

  /** A TLSH digest as returned by `tlsh.hash`: an opaque string. */
  type Hash = string

  datatype Option<+T> = None | Some(value: T)

  /** The exceptions a call can end with. `IndexError` is raised by tuple
      indexing in `SelectionResult.__getitem__`. */
  datatype Error =
    | ValueError(message: string)
    | IndexError
    | KeyError(key: Path)
    | InsufficientFilesError(found: nat, requested: int)
    | InvalidHashError(message: string)
    | CacheError(message: string)

  /** Either the value a call returns or the exception it raises. */
  datatype Result<+T> = Success(value: T) | Failure(error: Error) {
    predicate IsFailure() { Failure? }

    function PropagateFailure<U>(): Result<U>
      requires Failure?
    {
      Failure(error)
    }

    function Extract(): T
      requires Success?
    {
      value
    }
  }

  function Min(a: int, b: int): int { if a <= b then a else b }

  function Max(a: int, b: int): int { if a >= b then a else b }

  /** No element occurs twice. */
  predicate Distinct<T(==)>(s: seq<T>) {
    forall i, j | 0 <= i < j < |s| :: s[i] != s[j]
  }

  /** The set {0, ..., n - 1}. */
  function Range(n: nat): (r: set<nat>)
    ensures forall c: nat :: c in r <==> c < n
  {
    if n == 0 then {} else Range(n - 1) + {n - 1}
  }

  /** The set of elements of a sequence. */
  function Elements<T>(s: seq<T>): set<T> { set x | x in s }

  lemma {:induction false} RangeSize(n: nat)
    ensures |Range(n)| == n
  {
    if n > 0 {
      RangeSize(n - 1);
    }
  }

  lemma {:induction false} DistinctElements<T>(s: seq<T>)
    requires Distinct(s)
    ensures |Elements(s)| == |s|
  {
    if s != [] {
      var init := s[..|s| - 1];
      DistinctElements(init);
      assert Elements(s) == Elements(init) + {s[|s| - 1]};
      assert s[|s| - 1] !in Elements(init);
    }
  }

  lemma SubsetSize<T>(a: set<T>, b: set<T>)
    requires a <= b
    ensures |a| <= |b|
  {
    assert b == a + (b - a);
  }

  /** Pigeonhole for index sequences: a sequence of distinct indices below
      `n` has at most `n` elements, and if it has fewer, some index below
      `n` is missing from it. */
  lemma DistinctIndices(s: seq<nat>, n: nat)
    requires Distinct(s)
    requires forall t | 0 <= t < |s| :: s[t] < n
    ensures |s| <= n
    ensures |s| < n ==> exists c: nat :: c < n && c !in s
  {
    DistinctElements(s);
    RangeSize(n);
    SubsetSize(Elements(s), Range(n));
    if |s| < n && forall c: nat | c < n :: c in s {
      SubsetSize(Range(n), Elements(s));
      assert false;
    }
  }
}
