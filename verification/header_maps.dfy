/** An insertion-ordered dictionary as a Python `dict` behaves, represented
    as an association list. All recursion runs from the back of the list,
    which is the order in which a `for` loop of `d[k] = v` grows a dict. */
module HeaderMaps {
  import opened Wrappers

  function Keys(m: seq<(string, string)>): (ks: seq<string>)
    ensures |ks| == |m|
    ensures forall i :: 0 <= i < |m| ==> ks[i] == m[i].0
  {
    seq(|m|, i requires 0 <= i < |m| => m[i].0)
  }

  predicate Distinct(ks: seq<string>) {
    forall i, j :: 0 <= i < j < |ks| ==> ks[i] != ks[j]
  }

  /** `d.get(k)`. */
  function Get(m: seq<(string, string)>, k: string): (r: Option<string>)
  {
    if m == [] then None
    else if m[|m| - 1].0 == k then Some(m[|m| - 1].1)
    else Get(m[..|m| - 1], k)
  }

  /** Gives the last entry with key `k` the value `v`, leaving every other entry alone. */
  function Replace(m: seq<(string, string)>, k: string, v: string): (r: seq<(string, string)>)
    requires k in Keys(m)
    ensures Keys(r) == Keys(m)
  {
    var init, last := m[..|m| - 1], m[|m| - 1];
    assert Keys(m) == Keys(init) + [last.0];
    if last.0 == k then init + [(k, v)]
    else
      var r := Replace(init, k, v) + [last];
      assert Keys(r) == Keys(Replace(init, k, v)) + [last.0];
      r
  }

  /** `d[k] = v`: a new key goes to the end, an existing key keeps its place
      and takes the new value. */
  function Put(m: seq<(string, string)>, k: string, v: string): (r: seq<(string, string)>)
    ensures k in Keys(m) ==> Keys(r) == Keys(m)
    ensures k !in Keys(m) ==> r == m + [(k, v)]
  {
    if k in Keys(m) then Replace(m, k, v) else m + [(k, v)]
  }

  /** The dictionary that `for k, v in ps: d[k] = v` leaves behind, starting from `{}`. */
  function Build(ps: seq<(string, string)>): (d: seq<(string, string)>)
    ensures Distinct(Keys(d))
  {
    if ps == [] then []
    else
      var m := Build(ps[..|ps| - 1]);
      var k := ps[|ps| - 1].0;
      assert k !in Keys(m) ==> Keys(m + [(k, ps[|ps| - 1].1)]) == Keys(m) + [k];
      Put(m, k, ps[|ps| - 1].1)
  }

  /** The pairs of `ps` whose key satisfies `keep`, in order. On a dictionary
      this is the restriction of the dictionary to those keys. */
  function Filter(ps: seq<(string, string)>, keep: string -> bool): (r: seq<(string, string)>)
    ensures forall i :: 0 <= i < |r| ==> keep(r[i].0)
  {
    if ps == [] then []
    else Filter(ps[..|ps| - 1], keep) + (if keep(ps[|ps| - 1].0) then [ps[|ps| - 1]] else [])
  }

  /** The keys of `ks` in the order of their first appearance. */
  function Dedup(ks: seq<string>): seq<string> {
    if ks == [] then []
    else if ks[|ks| - 1] in ks[..|ks| - 1] then Dedup(ks[..|ks| - 1])
    else Dedup(ks[..|ks| - 1]) + [ks[|ks| - 1]]
  }

  /** A key reads as absent exactly when the dictionary does not hold it. */
  lemma {:induction false} GetAbsent(m: seq<(string, string)>, k: string)
    ensures Get(m, k).None? <==> k !in Keys(m)
  {
    if m != [] {
      GetAbsent(m[..|m| - 1], k);
      assert Keys(m) == Keys(m[..|m| - 1]) + [m[|m| - 1].0];
    }
  }

  /** After `d[k] = v`, `k` reads `v` and every other key reads as before. */
  lemma {:induction false} GetPut(m: seq<(string, string)>, k: string, v: string, j: string)
    ensures Get(Put(m, k, v), j) == if j == k then Some(v) else Get(m, j)
  {
    if k in Keys(m) {
      GetReplace(m, k, v, j);
    } else {
      var r := m + [(k, v)];
      assert r[..|r| - 1] == m;
    }
  }

  lemma {:induction false} GetReplace(m: seq<(string, string)>, k: string, v: string, j: string)
    requires k in Keys(m)
    ensures Get(Replace(m, k, v), j) == if j == k then Some(v) else Get(m, j)
  {
    var init, last := m[..|m| - 1], m[|m| - 1];
    assert Keys(m) == Keys(init) + [last.0];
    if last.0 == k {
      var r := init + [(k, v)];
      assert r[..|r| - 1] == init;
    } else {
      GetReplace(init, k, v, j);
      var p := Replace(init, k, v);
      assert (p + [last])[..|p|] == p;
    }
  }

  /** On a dictionary (distinct keys), `d[k] = v` changes only the entry of `k`,
      in place, or appends a new entry at the end. */
  lemma {:induction false} PutInPlace(m: seq<(string, string)>, k: string, v: string)
    requires Distinct(Keys(m))
    ensures var r := Put(m, k, v);
            && |r| == (if k in Keys(m) then |m| else |m| + 1)
            && forall i :: 0 <= i < |m| ==> r[i] == (if m[i].0 == k then (k, v) else m[i])
  {
    if k in Keys(m) {
      ReplaceInPlace(m, k, v);
    }
  }

  lemma {:induction false} ReplaceInPlace(m: seq<(string, string)>, k: string, v: string)
    requires k in Keys(m) && Distinct(Keys(m))
    ensures var r := Replace(m, k, v);
            && |r| == |m|
            && forall i :: 0 <= i < |m| ==> r[i] == (if m[i].0 == k then (k, v) else m[i])
  {
    var init, last := m[..|m| - 1], m[|m| - 1];
    assert Keys(m) == Keys(init) + [last.0];
    if last.0 == k {
      forall i | 0 <= i < |init| ensures init[i].0 != k {
        assert Keys(m)[i] != Keys(m)[|m| - 1];
      }
    } else {
      ReplaceInPlace(init, k, v);
    }
  }

  /** A dictionary built from `ps` holds exactly the keys of `ps`. */
  lemma {:induction false} BuildHasKeys(ps: seq<(string, string)>, k: string)
    ensures k in Keys(Build(ps)) <==> k in Keys(ps)
  {
    if ps != [] {
      var init, last := ps[..|ps| - 1], ps[|ps| - 1];
      BuildHasKeys(init, k);
      assert Keys(ps) == Keys(init) + [last.0];
      var m := Build(init);
      if last.0 !in Keys(m) {
        assert Keys(m + [last]) == Keys(m) + [last.0];
      }
    }
  }

  /** Repeated keys keep the position of their first occurrence. */
  lemma {:induction false} BuildKeysInFirstSeenOrder(ps: seq<(string, string)>)
    ensures Keys(Build(ps)) == Dedup(Keys(ps))
  {
    if ps != [] {
      var init, last := ps[..|ps| - 1], ps[|ps| - 1];
      BuildKeysInFirstSeenOrder(init);
      BuildHasKeys(init, last.0);
      var ks := Keys(ps);
      assert ks == Keys(init) + [last.0];
      assert ks[..|ks| - 1] == Keys(init);
      var m := Build(init);
      if last.0 !in Keys(m) {
        assert Keys(m + [last]) == Keys(m) + [last.0];
      }
    }
  }

  /** The last value given to a key wins: when the `i`-th pair is the last one
      with key `k`, the dictionary maps `k` to that pair's value. */
  lemma {:induction false} BuildLastValueWins(ps: seq<(string, string)>, i: nat, k: string)
    requires i < |ps| && ps[i].0 == k
    requires forall j :: i < j < |ps| ==> ps[j].0 != k
    ensures Get(Build(ps), k) == Some(ps[i].1)
  {
    var init, last := ps[..|ps| - 1], ps[|ps| - 1];
    GetPut(Build(init), last.0, last.1, k);
    if i < |ps| - 1 {
      BuildLastValueWins(init, i, k);
    }
  }

  /** A key that no pair carries is absent from the dictionary. */
  lemma BuildAbsentKey(ps: seq<(string, string)>, k: string)
    requires k !in Keys(ps)
    ensures Get(Build(ps), k) == None
  {
    BuildHasKeys(ps, k);
    GetAbsent(Build(ps), k);
  }

  /** Reading a restricted dictionary: a kept key reads as before, a dropped key is absent. */
  lemma {:induction false} GetFilter(m: seq<(string, string)>, keep: string -> bool, k: string)
    ensures Get(Filter(m, keep), k) == (if keep(k) then Get(m, k) else None)
  {
    if m != [] {
      var init, last := m[..|m| - 1], m[|m| - 1];
      GetFilter(init, keep, k);
      var f := Filter(init, keep);
      if keep(last.0) {
        assert Filter(m, keep) == f + [last];
        assert (f + [last])[..|f|] == f;
      } else {
        assert Filter(m, keep) == f;
      }
    }
  }

  lemma {:induction false} FilterReplaceKept(m: seq<(string, string)>, keep: string -> bool, k: string, v: string)
    requires keep(k) && k in Keys(m)
    ensures k in Keys(Filter(m, keep))
    ensures Filter(Replace(m, k, v), keep) == Replace(Filter(m, keep), k, v)
  {
    GetAbsent(m, k);
    GetFilter(m, keep, k);
    GetAbsent(Filter(m, keep), k);
    var init, last := m[..|m| - 1], m[|m| - 1];
    assert Keys(m) == Keys(init) + [last.0];
    var f := Filter(init, keep);
    if last.0 == k {
      var r := init + [(k, v)];
      assert r[..|r| - 1] == init;
      assert Filter(r, keep) == f + [(k, v)];
      assert Filter(m, keep) == f + [last];
      assert (f + [last])[..|f|] == f;
    } else {
      FilterReplaceKept(init, keep, k, v);
      var p := Replace(init, k, v);
      assert (p + [last])[..|p|] == p;
      if keep(last.0) {
        assert Filter(m, keep) == f + [last];
        assert Filter(p + [last], keep) == Filter(p, keep) + [last];
        assert (f + [last])[..|f|] == f;
      } else {
        assert Filter(m, keep) == f;
        assert Filter(p + [last], keep) == Filter(p, keep);
      }
    }
  }

  lemma {:induction false} FilterReplaceDropped(m: seq<(string, string)>, keep: string -> bool, k: string, v: string)
    requires !keep(k) && k in Keys(m)
    ensures Filter(Replace(m, k, v), keep) == Filter(m, keep)
  {
    var init, last := m[..|m| - 1], m[|m| - 1];
    assert Keys(m) == Keys(init) + [last.0];
    if last.0 == k {
      var r := init + [(k, v)];
      assert r[..|r| - 1] == init;
    } else {
      FilterReplaceDropped(init, keep, k, v);
      var p := Replace(init, k, v);
      assert (p + [last])[..|p|] == p;
    }
  }

  /** Restricting after `d[k] = v` is `d[k] = v` on the restriction when `k` is kept. */
  lemma FilterPutKept(m: seq<(string, string)>, keep: string -> bool, k: string, v: string)
    requires keep(k)
    ensures Filter(Put(m, k, v), keep) == Put(Filter(m, keep), k, v)
  {
    if k in Keys(m) {
      FilterReplaceKept(m, keep, k, v);
    } else {
      var r := m + [(k, v)];
      assert r[..|r| - 1] == m;
      assert Filter(r, keep) == Filter(m, keep) + [(k, v)];
      GetAbsent(m, k);
      GetFilter(m, keep, k);
      GetAbsent(Filter(m, keep), k);
    }
  }

  /** Restricting after `d[k] = v` undoes nothing when `k` is dropped. */
  lemma FilterPutDropped(m: seq<(string, string)>, keep: string -> bool, k: string, v: string)
    requires !keep(k)
    ensures Filter(Put(m, k, v), keep) == Filter(m, keep)
  {
    if k in Keys(m) {
      FilterReplaceDropped(m, keep, k, v);
    } else {
      var r := m + [(k, v)];
      assert r[..|r| - 1] == m;
      assert Filter(r, keep) == Filter(m, keep);
    }
  }

  /** Filtering the pairs before building the dictionary gives the same
      dictionary as building it from all pairs and restricting it afterwards. */
  lemma {:induction false} BuildFilter(ps: seq<(string, string)>, keep: string -> bool)
    ensures Build(Filter(ps, keep)) == Filter(Build(ps), keep)
  {
    if ps != [] {
      var init, last := ps[..|ps| - 1], ps[|ps| - 1];
      BuildFilter(init, keep);
      var f := Filter(init, keep);
      if keep(last.0) {
        assert Filter(ps, keep) == f + [last];
        assert (f + [last])[..|f|] == f;
        assert Build(f + [last]) == Put(Build(f), last.0, last.1);
        FilterPutKept(Build(init), keep, last.0, last.1);
      } else {
        assert Filter(ps, keep) == f;
        FilterPutDropped(Build(init), keep, last.0, last.1);
      }
    }
  }

  /** Filtering keeps only keys that were there. */
  lemma {:induction false} FilterKeys(ps: seq<(string, string)>, keep: string -> bool, k: string)
    ensures k in Keys(Filter(ps, keep)) ==> k in Keys(ps)
  {
    if ps != [] {
      var init, last := ps[..|ps| - 1], ps[|ps| - 1];
      FilterKeys(init, keep, k);
      assert Keys(ps) == Keys(init) + [last.0];
      var f := Filter(init, keep);
      if keep(last.0) {
        assert Keys(f + [last]) == Keys(f) + [last.0];
      }
    }
  }

  /** Filtering with a test every key passes changes nothing. */
  lemma {:induction false} FilterKeepsAll(ps: seq<(string, string)>, keep: string -> bool)
    requires forall i :: 0 <= i < |ps| ==> keep(ps[i].0)
    ensures Filter(ps, keep) == ps
  {
    if ps != [] {
      FilterKeepsAll(ps[..|ps| - 1], keep);
    }
  }
}
