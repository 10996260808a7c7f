/** Python's built-in `dict` from paths to hashes, as the package relies on
    it: a finite map whose keys remember the order in which they were first
    inserted. The order matters here, because `FileSelector.select` turns the hash dict into
    the candidate list with `list(self._hash_dict.keys())`. */
module Dicts {
  import opened Base

  datatype Dict = Dict(keys: seq<Path>, vals: map<Path, Hash>) {
    /** Every key occurs once in `keys`, and `keys` lists exactly the keys of `vals`. */
    ghost predicate Wf() {
      Distinct(keys) && forall k :: k in vals <==> k in keys
    }
  }

  function Empty(): (d: Dict)
    ensures d.Wf() && d.vals == map[] && d.keys == []
  {
    Dict([], map[])
  }

  /** `d[k] = v`: a new key goes to the end, an existing key keeps its place. */
  function Put(d: Dict, k: Path, v: Hash): (r: Dict)
    requires d.Wf()
    ensures r.Wf()
    ensures r.vals == d.vals[k := v]
    ensures r.keys == if k in d.vals then d.keys else d.keys + [k]
  {
    if k in d.vals then Dict(d.keys, d.vals[k := v]) else Dict(d.keys + [k], d.vals[k := v])
  }

  /** The keys of `s` in order of first occurrence: the key order of a dict
      into which the elements of `s` are inserted one after the other. */
  function Dedup(s: seq<Path>): (r: seq<Path>)
    ensures Distinct(r)
    ensures forall k :: k in r <==> k in s
    decreases |s|
  {
    if s == [] then []
    else
      var init := Dedup(s[..|s| - 1]);
      assert forall k :: k in s <==> k in s[..|s| - 1] || k == s[|s| - 1];
      if s[|s| - 1] in init then init else init + [s[|s| - 1]]
  }

  /** Appending one element to a sequence appends it to its keys unless it is already there. */
  lemma DedupSnoc(s: seq<Path>, k: Path)
    ensures Dedup(s + [k]) == if k in Dedup(s) then Dedup(s) else Dedup(s) + [k]
  {
    var t := s + [k];
    assert t[..|t| - 1] == s && t[|t| - 1] == k;
  }

  /** Inserting the keys `ks` one after the other, each with its value in `vals`. */
  function PutAll(d: Dict, ks: seq<Path>, vals: map<Path, Hash>): (r: Dict)
    requires d.Wf()
    requires forall k | k in ks :: k in vals
    ensures r.Wf()
    ensures forall k :: k in r.vals <==> k in d.vals || k in ks
    ensures forall k | k in r.vals :: r.vals[k] == if k in ks then vals[k] else d.vals[k]
    ensures |d.keys| <= |r.keys| && r.keys[..|d.keys|] == d.keys
    decreases |ks|
  {
    if ks == [] then
      d
    else
      var init := ks[..|ks| - 1];
      assert forall k :: k in ks <==> k in init || k == ks[|ks| - 1];
      Put(PutAll(d, init, vals), ks[|ks| - 1], vals[ks[|ks| - 1]])
  }

  /** Inserting keys none of which is already present appends them in order
      of first occurrence. */
  lemma {:induction false} PutAllFresh(d: Dict, ks: seq<Path>, vals: map<Path, Hash>)
    requires d.Wf()
    requires forall k | k in ks :: k in vals && k !in d.vals
    ensures PutAll(d, ks, vals).keys == d.keys + Dedup(ks)
    decreases |ks|
  {
    if ks != [] {
      var init, last := ks[..|ks| - 1], ks[|ks| - 1];
      assert forall k | k in init :: k in ks;
      PutAllFresh(d, init, vals);
      PutFresh(PutAll(d, init, vals), d.keys, init, last, vals[last]);
    }
  }

  lemma PutFresh(prev: Dict, front: seq<Path>, ks: seq<Path>, k: Path, v: Hash)
    requires prev.Wf() && prev.keys == front + Dedup(ks)
    requires k in prev.vals <==> k in ks
    ensures Put(prev, k, v).keys == front + Dedup(ks + [k])
  {
    var s := ks + [k];
    assert s[..|s| - 1] == ks && s[|s| - 1] == k;
    assert Dedup(s) == if k in Dedup(ks) then Dedup(ks) else Dedup(ks) + [k];
    if k !in ks {
      assert prev.keys + [k] == front + (Dedup(ks) + [k]);
    }
  }

  /** `d.update(e)`: the keys of `e`, in `e`'s order, inserted into `d`. */
  function Update(d: Dict, e: Dict): (r: Dict)
    requires d.Wf() && e.Wf()
    ensures r.Wf()
    ensures r.vals == d.vals + e.vals
    ensures |d.keys| <= |r.keys| && r.keys[..|d.keys|] == d.keys
    ensures d.vals.Keys !! e.vals.Keys ==> r.keys == d.keys + e.keys
  {
    var r := PutAll(d, e.keys, e.vals);
    UpdateValues(d, e, r);
    if d.vals.Keys !! e.vals.Keys then
      PutAllFresh(d, e.keys, e.vals);
      DedupOfDistinct(e.keys);
      r
    else
      r
  }

  lemma UpdateValues(d: Dict, e: Dict, r: Dict)
    requires e.Wf()
    requires forall k :: k in r.vals <==> k in d.vals || k in e.keys
    requires forall k | k in r.vals :: r.vals[k] == if k in e.keys then e.vals[k] else d.vals[k]
    ensures r.vals == d.vals + e.vals
  {
  }

  lemma {:induction false} DedupOfDistinct(s: seq<Path>)
    requires Distinct(s)
    ensures Dedup(s) == s
  {
    if s != [] {
      DedupOfDistinct(s[..|s| - 1]);
      assert s[|s| - 1] !in s[..|s| - 1];
    }
  }
}
