/** The farthest-point (greedy max-min) selection of `_greedy_selection`
    (src/tlsh_selector/selector.py), stated as a specification over
    positions in the list of valid paths: which position each round must
    pick, and the diversity score it reports. The method that computes a
    run in place is `Selector.FileSelector.GreedySelection`. */
module MaxMin {
  import opened Base
  import opened Types

  /** The candidates of one selection: the valid paths, in order, their
      hashes, and `tlsh.diff`. Distances are taken as `diff(current,
      candidate)`; `diff` is not assumed symmetric. */
  datatype Space = Space(paths: seq<Path>, hashes: map<Path, Hash>, diff: (Hash, Hash) -> nat) {
    /** Every candidate has a hash (otherwise the lookup raises KeyError). */
    predicate Wf() {
      forall p | p in paths :: p in hashes
    }

    predicate InRange(sel: seq<nat>) {
      forall t | 0 <= t < |sel| :: sel[t] < |paths|
    }

    /** The distance from the file at position `i` to the file at position `j`. */
    function Dist(i: nat, j: nat): nat
      requires Wf() && i < |paths| && j < |paths|
    {
      diff(hashes[paths[i]], hashes[paths[j]])
    }

    /** The distance from the candidate `c` to its nearest pick in `sel`
        (see `MinDistIsNearest`). */
    function MinDist(sel: seq<nat>, c: nat): nat
      requires Wf() && InRange(sel) && |sel| >= 1 && c < |paths|
      decreases |sel|
    {
      var last := sel[|sel| - 1];
      if |sel| == 1 then Dist(last, c)
      else Min(MinDist(sel[..|sel| - 1], c), Dist(last, c))
    }

    /** `c` is what a round picks after `sel`: an unselected position whose
        distance to its nearest pick is the largest, and (the strict `>` of
        the scan) the lowest such position. */
    predicate IsChoice(sel: seq<nat>, c: nat)
      requires Wf() && InRange(sel) && |sel| >= 1
    {
      c < |paths| && c !in sel
      && (forall u: nat | u < |paths| && u !in sel :: MinDist(sel, u) <= MinDist(sel, c))
      && (forall u: nat | u < c && u !in sel :: MinDist(sel, u) < MinDist(sel, c))
    }

    /** `sel` is a run of the greedy selection that starts at `first`: every
        pick after the first is the choice of its round. */
    predicate IsRun(first: nat, sel: seq<nat>)
      requires Wf()
    {
      |sel| >= 1 && sel[0] == first && InRange(sel)
      && forall t | 1 <= t < |sel| :: IsChoice(sel[..t], sel[t])
    }

    /** The diversity scores of a run: infinite for the first pick, then the
        distance from each pick to its nearest earlier pick. */
    function Scores(sel: seq<nat>): (s: seq<Score>)
      requires Wf() && InRange(sel) && |sel| >= 1
      ensures |s| == |sel| && s[0] == Inf
      ensures forall t | 1 <= t < |s| :: s[t] == Fin(MinDist(sel[..t], sel[t]))
    {
      seq(|sel|, t requires 0 <= t < |sel| => if t == 0 then Inf else Fin(MinDist(sel[..t], sel[t])))
    }
  }

  /** `MinDist` is the minimum: no larger than the distance from any pick,
      and equal to the distance from one of them. */
  lemma {:induction false} MinDistIsNearest(sp: Space, sel: seq<nat>, c: nat)
    requires sp.Wf() && sp.InRange(sel) && |sel| >= 1 && c < |sp.paths|
    ensures forall t | 0 <= t < |sel| :: sp.MinDist(sel, c) <= sp.Dist(sel[t], c)
    ensures exists t :: 0 <= t < |sel| && sp.MinDist(sel, c) == sp.Dist(sel[t], c)
    decreases |sel|
  {
    var last := sel[|sel| - 1];
    if |sel| == 1 {
      assert sp.MinDist(sel, c) == sp.Dist(sel[0], c);
    } else {
      var init := sel[..|sel| - 1];
      MinDistIsNearest(sp, init, c);
      assert forall t | 0 <= t < |init| :: init[t] == sel[t];
      if sp.MinDist(init, c) <= sp.Dist(last, c) {
        var t :| 0 <= t < |init| && sp.MinDist(init, c) == sp.Dist(init[t], c);
        assert sp.MinDist(sel, c) == sp.Dist(sel[t], c);
      } else {
        assert sp.MinDist(sel, c) == sp.Dist(sel[|sel| - 1], c);
      }
    }
  }

  /** Adding a pick: the nearest distance is the smaller of the old one and
      the distance from the new pick. */
  lemma MinDistSnoc(sp: Space, sel: seq<nat>, x: nat, c: nat)
    requires sp.Wf() && sp.InRange(sel) && |sel| >= 1 && x < |sp.paths| && c < |sp.paths|
    ensures sp.InRange(sel + [x])
    ensures sp.MinDist(sel + [x], c) == Min(sp.MinDist(sel, c), sp.Dist(x, c))
  {
    var s := sel + [x];
    assert s[..|s| - 1] == sel;
  }

  /** Extending a run by the choice of the next round extends its scores by
      the chosen pick's nearest distance. */
  lemma ScoresSnoc(sp: Space, sel: seq<nat>, c: nat)
    requires sp.Wf() && sp.InRange(sel) && |sel| >= 1 && c < |sp.paths|
    ensures sp.InRange(sel + [c])
    ensures sp.Scores(sel + [c]) == sp.Scores(sel) + [Fin(sp.MinDist(sel, c))]
  {
    var s := sel + [c];
    var lhs, rhs := sp.Scores(s), sp.Scores(sel) + [Fin(sp.MinDist(sel, c))];
    assert s[..|sel|] == sel;
    forall t | 0 <= t < |s|
      ensures lhs[t] == rhs[t]
    {
      if 1 <= t < |sel| {
        assert s[..t] == sel[..t] && s[t] == sel[t];
      }
    }
  }

  lemma RunSnoc(sp: Space, first: nat, sel: seq<nat>, c: nat)
    requires sp.Wf() && sp.IsRun(first, sel) && sp.IsChoice(sel, c)
    ensures sp.IsRun(first, sel + [c])
  {
    var s := sel + [c];
    assert s[..|sel|] == sel;
    forall t | 1 <= t < |s|
      ensures sp.IsChoice(s[..t], s[t])
    {
      if t < |sel| {
        assert s[..t] == sel[..t];
      }
    }
  }

  /** The picks of a run are pairwise distinct positions, so a run never
      has more picks than there are candidates. */
  lemma RunDistinct(sp: Space, first: nat, sel: seq<nat>)
    requires sp.Wf() && sp.IsRun(first, sel)
    ensures Distinct(sel)
    ensures |sel| <= |sp.paths|
  {
    forall i, j | 0 <= i < j < |sel|
      ensures sel[i] != sel[j]
    {
      assert sp.IsChoice(sel[..j], sel[j]);
      assert sel[..j][i] == sel[i];
    }
    DistinctIndices(sel, |sp.paths|);
  }

  lemma RunPrefix(sp: Space, first: nat, sel: seq<nat>, k: nat)
    requires sp.Wf() && sp.IsRun(first, sel) && 1 <= k <= |sel|
    ensures sp.IsRun(first, sel[..k])
  {
    forall t | 1 <= t < k
      ensures sp.IsChoice(sel[..k][..t], sel[..k][t])
    {
      assert sel[..k][..t] == sel[..t];
    }
  }

  /** A round has at most one choice. */
  lemma ChoiceUnique(sp: Space, sel: seq<nat>, c1: nat, c2: nat)
    requires sp.Wf() && sp.InRange(sel) && |sel| >= 1
    requires sp.IsChoice(sel, c1) && sp.IsChoice(sel, c2)
    ensures c1 == c2
  {
  }

  /** The selection is deterministic once the first pick is drawn: two runs
      from the same first pick with the same number of picks are equal. */
  lemma {:induction false} RunUnique(sp: Space, first: nat, a: seq<nat>, b: seq<nat>)
    requires sp.Wf() && sp.IsRun(first, a) && sp.IsRun(first, b) && |a| == |b|
    ensures a == b
    decreases |a|
  {
    var k := |a| - 1;
    if k > 0 {
      RunPrefix(sp, first, a, k);
      RunPrefix(sp, first, b, k);
      RunUnique(sp, first, a[..k], b[..k]);
      ChoiceUnique(sp, a[..k], a[k], b[k]);
      assert a == a[..k] + [a[k]] && b == b[..k] + [b[k]];
    }
  }

  /** Each score after the first is the distance from its pick to the
      nearest earlier pick: no larger than the distance to any earlier pick,
      and equal to the distance to one of them. */
  lemma ScoresAreNearestDistances(sp: Space, first: nat, sel: seq<nat>, t: nat)
    requires sp.Wf() && sp.IsRun(first, sel) && 1 <= t < |sel|
    ensures sp.Scores(sel)[t].Fin?
    ensures forall s | 0 <= s < t :: sp.Scores(sel)[t].d <= sp.Dist(sel[s], sel[t])
    ensures exists s :: 0 <= s < t && sp.Scores(sel)[t].d == sp.Dist(sel[s], sel[t])
  {
    var m := sp.MinDist(sel[..t], sel[t]);
    MinDistIsNearest(sp, sel[..t], sel[t]);
    assert forall s | 0 <= s < t :: sel[..t][s] == sel[s];
    var s :| 0 <= s < t && m == sp.Dist(sel[..t][s], sel[t]);
    assert m == sp.Dist(sel[s], sel[t]);
  }

  /** When every distance is the same `k` (zero in the degenerate case of
      identical files), every score after the first is `k`. */
  lemma AllTiedScores(sp: Space, first: nat, sel: seq<nat>, k: nat)
    requires sp.Wf() && sp.IsRun(first, sel)
    requires forall i, j | 0 <= i < |sp.paths| && 0 <= j < |sp.paths| :: sp.Dist(i, j) == k
    ensures forall t | 1 <= t < |sel| :: sp.Scores(sel)[t] == Fin(k)
  {
    forall t | 1 <= t < |sel|
      ensures sp.Scores(sel)[t] == Fin(k)
    {
      ScoresAreNearestDistances(sp, first, sel, t);
    }
  }

  /** The scores after the first never increase: the remaining candidates
      only lose distance as picks are added, and each round takes the
      largest. */
  lemma ScoresNonIncreasing(sp: Space, first: nat, sel: seq<nat>)
    requires sp.Wf() && sp.IsRun(first, sel)
    ensures forall t | 1 <= t < |sel| - 1 :: sp.Scores(sel)[t + 1].d <= sp.Scores(sel)[t].d
  {
    RunDistinct(sp, first, sel);
    forall t | 1 <= t < |sel| - 1
      ensures sp.Scores(sel)[t + 1].d <= sp.Scores(sel)[t].d
    {
      var next := sel[t + 1];
      assert sel[..t + 1] == sel[..t] + [sel[t]];
      MinDistSnoc(sp, sel[..t], sel[t], next);
      assert next !in sel[..t] by {
        forall s | 0 <= s < t
          ensures sel[..t][s] != next
        {
          assert sel[..t][s] == sel[s];
        }
      }
      assert sp.IsChoice(sel[..t], sel[t]);
    }
  }

  /** When every distance is the same, the scan's strict comparison decides
      alone: each round picks the lowest unselected position. */
  lemma AllTiedPicksLowest(sp: Space, sel: seq<nat>, c: nat, k: nat)
    requires sp.Wf() && sp.InRange(sel) && |sel| >= 1
    requires forall i, j | 0 <= i < |sp.paths| && 0 <= j < |sp.paths| :: sp.Dist(i, j) == k
    ensures sp.IsChoice(sel, c) <==> c < |sp.paths| && c !in sel && forall u: nat | u < c :: u in sel
  {
    forall u: nat | u < |sp.paths|
      ensures sp.MinDist(sel, u) == k
    {
      MinDistIsNearest(sp, sel, u);
    }
  }

  function Abs(x: int): nat {
    if x < 0 then -x else x
  }

  /** Ten files on a line: the file at position `i` lies at `i`, and the
      distance between two files is the distance between their places. */
  function Line(): (sp: Space)
    ensures |sp.paths| == 10 && sp.Wf()
  {
    var paths := seq(10, i requires 0 <= i < 10 => seq(i + 1, _ => 'a'));
    Space(paths, map p | p in paths :: p, (a: Hash, b: Hash) => Abs(|a| - |b|))
  }

  lemma LineDist(i: nat, j: nat)
    requires i < 10 && j < 10
    ensures Line().Dist(i, j) == Abs(i - j)
  {
    var sp := Line();
    assert |sp.paths[i]| == i + 1 && |sp.paths[j]| == j + 1;
  }

  lemma LineNearest(u: nat)
    requires u < 10
    ensures Line().MinDist([0], u) == u
    ensures Line().MinDist([0, 9], u) == Min(u, 9 - u)
  {
    var sp := Line();
    LineDist(0, u);
    LineDist(9, u);
    assert [0, 9][..1] == [0];
  }

  lemma LineFirstChoice()
    ensures Line().IsChoice([0], 9)
  {
    forall u: nat | u < 10
      ensures Line().MinDist([0], u) == u
    {
      LineNearest(u);
    }
  }

  lemma LineSecondChoice()
    ensures Line().IsChoice([0, 9], 4)
  {
    forall u: nat | u < 10
      ensures Line().MinDist([0, 9], u) == Min(u, 9 - u)
    {
      LineNearest(u);
    }
  }

  /** On the line, from the first pick 0, the run of three picks is
      [0, 9, 4]: 9 is farthest from 0, then 4 and 5 are both at distance 4
      from their nearest pick and the lower position wins. The scores are
      infinity, 9 and 4, and no other run of three picks starts at 0. */
  lemma LineScenario()
    ensures Line().IsRun(0, [0, 9, 4])
    ensures Line().Scores([0, 9, 4]) == [Inf, Fin(9), Fin(4)]
    ensures forall sel | Line().IsRun(0, sel) && |sel| == 3 :: sel == [0, 9, 4]
  {
    LineRun();
    LineScores();
    forall sel | Line().IsRun(0, sel) && |sel| == 3
      ensures sel == [0, 9, 4]
    {
      RunUnique(Line(), 0, sel, [0, 9, 4]);
    }
  }

  lemma LineRun()
    ensures Line().IsRun(0, [0, 9, 4])
  {
    var sp := Line();
    LineFirstChoice();
    LineSecondChoice();
    assert sp.IsRun(0, [0]);
    RunSnoc(sp, 0, [0], 9);
    assert [0] + [9] == [0, 9];
    RunSnoc(sp, 0, [0, 9], 4);
    assert [0, 9] + [4] == [0, 9, 4];
  }

  lemma LineScores()
    ensures Line().Scores([0, 9, 4]) == [Inf, Fin(9), Fin(4)]
  {
    var sp := Line();
    LineFirstScores();
    LineNearest(4);
    assert [0, 9] + [4] == [0, 9, 4];
    ScoresSnoc(sp, [0, 9], 4);
  }

  lemma LineFirstScores()
    ensures Line().Scores([0, 9]) == [Inf, Fin(9)]
  {
    var sp := Line();
    LineNearest(9);
    assert [0] + [9] == [0, 9];
    ScoresSnoc(sp, [0], 9);
    assert sp.Scores([0]) == [Inf];
  }
}
