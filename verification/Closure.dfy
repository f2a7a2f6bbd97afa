/** add_deps_to_ops: insert pairs one after the other, then repair transitivity in a
    single forward pass. */
module Closure {
  import opened Deps

  type Pair = (nat, nat)

  ghost predicate PairsInRange(pairs: seq<Pair>, n: nat) {
    forall p :: p in pairs ==> p.0 < n && p.1 < n
  }

  ghost predicate PairsBackward(pairs: seq<Pair>) {
    forall p: Pair :: p in pairs ==> p.1 < p.0
  }

  ghost predicate HasPairs(deps: DepList, pairs: seq<Pair>) {
    forall p :: p in pairs ==> p.0 < |deps| && p.1 in deps[p.0]
  }

  /** add_dep. */
  function AddPair(deps: DepList, p: Pair): DepList
    requires p.0 < |deps| && p.1 < |deps|
  {
    deps[p.0 := deps[p.0] + deps[p.1] + {p.1}]
  }

  function AddPairs(deps: DepList, pairs: seq<Pair>): (r: DepList)
    requires PairsInRange(pairs, |deps|)
    ensures |r| == |deps|
    decreases |pairs|
  {
    if pairs == [] then deps
    else
      var last := |pairs| - 1;
      AddPair(AddPairs(deps, pairs[..last]), pairs[last])
  }

  /** The dependencies of k together with the dependencies of those. */
  function Absorb(deps: DepList, k: nat): set<nat>
    requires k < |deps|
  {
    deps[k] + set d, e | d in deps[k] && d < |deps| && e in deps[d] :: e
  }

  /** The forward pass over the first n operations. */
  function Recompute(deps: DepList, n: nat): (r: DepList)
    requires n <= |deps|
    ensures |r| == |deps|
  {
    if n == 0 then deps
    else
      var r := Recompute(deps, n - 1);
      r[n - 1 := Absorb(r, n - 1)]
  }

  function WithPairs(deps: DepList, pairs: seq<Pair>): DepList
    requires PairsInRange(pairs, |deps|)
  {
    Recompute(AddPairs(deps, pairs), |deps|)
  }

  // ----- the pairs -----

  lemma {:induction false} AddPairsGrows(deps: DepList, pairs: seq<Pair>)
    requires PairsInRange(pairs, |deps|)
    ensures Contained(deps, AddPairs(deps, pairs))
    ensures HasPairs(AddPairs(deps, pairs), pairs)
    decreases |pairs|
  {
    if pairs == [] {
    } else {
      AddPairsGrows(deps, pairs[..|pairs| - 1]);
    }
  }

  lemma {:induction false} AddPairsBackward(deps: DepList, pairs: seq<Pair>)
    requires PairsInRange(pairs, |deps|)
    requires Backward(deps) && PairsBackward(pairs)
    ensures Backward(AddPairs(deps, pairs))
    decreases |pairs|
  {
    if pairs == [] {
    } else {
      AddPairsBackward(deps, pairs[..|pairs| - 1]);
      assert pairs[|pairs| - 1] in pairs;
    }
  }

  lemma {:induction false} AddPairsWithin(deps: DepList, pairs: seq<Pair>, bound: DepList)
    requires PairsInRange(pairs, |deps|)
    requires Contained(deps, bound) && HasPairs(bound, pairs) && Transitive(bound)
    ensures Contained(AddPairs(deps, pairs), bound)
    decreases |pairs|
  {
    if pairs == [] {
    } else {
      AddPairsWithin(deps, pairs[..|pairs| - 1], bound);
      assert pairs[|pairs| - 1] in pairs;
    }
  }

  lemma {:induction false} AddPairsInRange(deps: DepList, pairs: seq<Pair>)
    requires PairsInRange(pairs, |deps|) && InRange(deps)
    ensures InRange(AddPairs(deps, pairs))
    decreases |pairs|
  {
    if pairs == [] {
    } else {
      AddPairsInRange(deps, pairs[..|pairs| - 1]);
      assert pairs[|pairs| - 1] in pairs;
    }
  }

  // ----- the pass -----

  lemma {:induction false} RecomputeInRange(deps: DepList, n: nat)
    requires n <= |deps| && InRange(deps)
    ensures InRange(Recompute(deps, n))
  {
    if n == 0 {
    } else {
      RecomputeInRange(deps, n - 1);
    }
  }

  lemma {:induction false} RecomputeWithin(deps: DepList, n: nat, bound: DepList)
    requires n <= |deps|
    requires Contained(deps, bound) && Transitive(bound)
    ensures Contained(Recompute(deps, n), bound)
  {
    if n == 0 {
    } else {
      RecomputeWithin(deps, n - 1, bound);
    }
  }

  /** The first n rows are closed, the others untouched. */
  /** The first n rows are closed, the others untouched. */
  ghost predicate ClosedSoFar(deps: DepList, r: DepList, n: nat) {
    && |r| == |deps| && Backward(r) && Contained(deps, r)
    && (forall k :: n <= k < |deps| ==> r[k] == deps[k])
    && (forall k, d :: 0 <= k < n && k < |r| && d in r[k] && d < |r| ==> r[d] <= r[k])
  }

  /** Where the earlier rows are closed, one more row is after absorbing them. */
  lemma AbsorbCloses(r: DepList, k: nat)
    requires k < |r| && Backward(r)
    requires forall j, d :: 0 <= j < k && d in r[j] && d < |r| ==> r[d] <= r[j]
    ensures var row := Absorb(r, k);
            r[k] <= row && (forall d :: d in row ==> d < k) && (forall d :: d in row ==> r[d] <= row)
  {}

  lemma OneMoreRow(deps: DepList, r: DepList, k: nat, row: set<nat>)
    requires ClosedSoFar(deps, r, k) && k < |r|
    requires r[k] <= row && (forall d :: d in row ==> d < k) && (forall d :: d in row ==> r[d] <= row)
    ensures ClosedSoFar(deps, r[k := row], k + 1)
  {
    var r' := r[k := row];
    forall j | 0 <= j < |r'| ensures deps[j] <= r'[j] {}
    forall j, d | 0 <= j < k + 1 && d in r'[j] ensures d < j && r'[d] <= r'[j] {
      assert d < j && r'[d] == r[d];
    }
  }

  lemma {:induction false} RecomputeCloses(deps: DepList, n: nat)
    requires n <= |deps| && Backward(deps)
    ensures ClosedSoFar(deps, Recompute(deps, n), n)
  {
    if n == 0 {
    } else {
      RecomputeCloses(deps, n - 1);
      var r := Recompute(deps, n - 1);
      AbsorbCloses(r, n - 1);
      hide ClosedSoFar, Absorb;
      OneMoreRow(deps, r, n - 1, Absorb(r, n - 1));
    }
  }

  /** One forward pass yields the least transitively closed list that contains the old
      dependencies and the new pairs, in whatever order the pairs are inserted. */
  lemma WithPairsIsLeastClosure(deps: DepList, pairs: seq<Pair>)
    requires Backward(deps) && PairsInRange(pairs, |deps|) && PairsBackward(pairs)
    ensures var r := WithPairs(deps, pairs);
            && Closed(r) && Contained(deps, r) && HasPairs(r, pairs)
            && forall t: DepList :: Contained(deps, t) && HasPairs(t, pairs) && Transitive(t) ==> Contained(r, t)
  {
    AddPairsGrows(deps, pairs);
    AddPairsBackward(deps, pairs);
    RecomputeCloses(AddPairs(deps, pairs), |deps|);
    forall t: DepList | Contained(deps, t) && HasPairs(t, pairs) && Transitive(t)
      ensures Contained(WithPairs(deps, pairs), t)
    {
      AddPairsWithin(deps, pairs, t);
      RecomputeWithin(AddPairs(deps, pairs), |deps|, t);
    }
  }

  /** The order in which the pairs are inserted (the source sorts them) does not matter. */
  lemma PairOrderIsIrrelevant(deps: DepList, pairs: seq<Pair>, pairs': seq<Pair>)
    requires Backward(deps)
    requires PairsInRange(pairs, |deps|) && PairsBackward(pairs)
    requires forall p :: p in pairs <==> p in pairs'
    ensures WithPairs(deps, pairs) == WithPairs(deps, pairs')
  {
    WithPairsIsLeastClosure(deps, pairs);
    WithPairsIsLeastClosure(deps, pairs');
    var r, r' := WithPairs(deps, pairs), WithPairs(deps, pairs');
    assert Contained(r, r') && Contained(r', r);
    forall k | 0 <= k < |deps| ensures r[k] == r'[k] {
      assert r[k] <= r'[k] && r'[k] <= r[k];
    }
  }

  /** Pairs that point forward are outside the promise: here one pass is not enough. */
  lemma ForwardPairsAreNotClosed()
    ensures var deps: DepList := [{}, {}, {}, {}];
            var pairs: seq<Pair> := [(0, 1), (1, 2), (2, 3)];
            !Transitive(WithPairs(deps, pairs))
  {
    var deps: DepList := [{}, {}, {}, {}];
    var p0: Pair, p1: Pair, p2: Pair := (0, 1), (1, 2), (2, 3);
    assert [p0, p1][..1] == [p0] && [p0, p1, p2][..2] == [p0, p1];
    var a0 := AddPairs(deps, [p0]);
    var a1 := AddPairs(deps, [p0, p1]);
    var a := AddPairs(deps, [p0, p1, p2]);
    assert a0 == AddPair(AddPairs(deps, [p0][..0]), p0);
    assert a == AddPair(AddPair(AddPair(deps, p0), p1), p2);
    assert a[0] == {1} && a[1] == {2} && a[2] == {3} && a[3] == {};
    var r1 := Recompute(a, 1);
    assert r1 == a[0 := Absorb(a, 0)] && Absorb(a, 0) == {1, 2};
    var r3 := Recompute(a, 3);
    assert r3[2] == Absorb(Recompute(a, 2), 2);
    var r := Recompute(a, 4);
    assert r[0] == {1, 2} && 3 in r[2];
    assert 2 in r[0] && 3 !in r[0];
  }
}
