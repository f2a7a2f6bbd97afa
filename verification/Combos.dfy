/** Counting crash states: the recursive counter against brute force. */
module Combos {
  import opened Deps

  /** test_validity: every operation comes with everything it depends on. */
  ghost predicate ValidCombo(deps: DepList, combo: set<nat>) {
    forall k :: k in combo && k < |deps| ==> deps[k] <= combo
  }

  /** What brute force over all non-empty combinations finds. */
  ghost function BruteForce(deps: DepList): set<set<nat>> {
    set s: set<nat> | s <= UpTo(|deps|) && s != {} && ValidCombo(deps, s)
  }

  // ----- the counter -----

  /** The combinations that count_combos counts from its prefix up to end, given what was dropped. */
  function Count(deps: DepList, start: int, end: int, drop: set<nat>): nat
    requires -1 <= end < |deps|
    decreases |deps| - end, 0
  {
    (if end >= start then 1 else 0) + CountFrom(deps, start, end + 1, drop)
  }

  /** The candidates from i on, dropping each included one for the next round. */
  function CountFrom(deps: DepList, start: int, i: nat, drop: set<nat>): nat
    requires i <= |deps|
    decreases |deps| - i, 1
  {
    if i == |deps| then 0
    else if deps[i] !! drop then
      Count(deps, start, i, drop) + CountFrom(deps, start, i + 1, drop + {i})
    else
      CountFrom(deps, start, i + 1, drop)
  }

  lemma CountFromStep(deps: DepList, start: int, i: nat, drop: set<nat>)
    requires i < |deps|
    ensures CountFrom(deps, start, i, drop) ==
      if deps[i] !! drop then Count(deps, start, i, drop) + CountFrom(deps, start, i + 1, drop + {i})
      else CountFrom(deps, start, i + 1, drop)
  {}

  lemma CountFromEnd(deps: DepList, start: int)
    ensures forall drop :: CountFrom(deps, start, |deps|, drop) == 0
  {}

  function CountAll(deps: DepList): nat {
    Count(deps, 0, -1, {})
  }

  // ----- bit vectors -----

  function Bits(s: set<nat>, n: nat): (v: seq<bool>)
    ensures |v| == n
    ensures forall i :: 0 <= i < n ==> (v[i] <==> i in s)
  {
    seq(n, i requires 0 <= i < n => i in s)
  }

  lemma SetBit(s: set<nat>, i: nat, n: nat)
    requires i < n
    ensures Bits(s + {i}, n) == Bits(s, n)[i := true]
  {}

  function AllBits(deps: DepList): (v: seq<seq<bool>>)
    ensures |v| == |deps|
    ensures forall k :: 0 <= k < |deps| ==> v[k] == Bits(deps[k], |deps|)
  {
    seq(|deps|, k requires 0 <= k < |deps| => Bits(deps[k], |deps|))
  }

  function And(a: seq<bool>, b: seq<bool>): (v: seq<bool>)
    requires |a| == |b|
    ensures |v| == |a|
    ensures forall i :: 0 <= i < |a| ==> v[i] == (a[i] && b[i])
  {
    seq(|a|, i requires 0 <= i < |a| => a[i] && b[i])
  }

  function CountBits(v: seq<bool>): nat {
    if v == [] then 0 else (if v[0] then 1 else 0) + CountBits(v[1..])
  }

  lemma {:induction false} NoBits(v: seq<bool>)
    ensures CountBits(v) == 0 <==> forall i :: 0 <= i < |v| ==> !v[i]
  {
    if v == [] {
    } else {
      NoBits(v[1..]);
      assert forall i :: 0 < i < |v| ==> v[i] == v[1..][i - 1];
    }
  }

  /** The bit test of count_combos is the set test. */
  lemma DisjointBits(a: set<nat>, b: set<nat>, n: nat)
    requires a <= UpTo(n) && b <= UpTo(n)
    ensures CountBits(And(Bits(a, n), Bits(b, n))) == 0 <==> a !! b
  {
    var v := And(Bits(a, n), Bits(b, n));
    NoBits(v);
    if x :| x in a && x in b {
      assert v[x];
    }
  }

  // ----- the counter is exact -----

  /** The prefix the counter has in mind: neither dropped nor blocked by something dropped.
      Blocked operations are never put in the drop set. */
  ghost function Kept(deps: DepList, i: nat, drop: set<nat>): set<nat>
    requires i <= |deps|
  {
    set k | k in UpTo(i) && k !in drop && deps[k] !! drop
  }

  /** The valid combinations whose first i decisions are the kept prefix. */
  ghost function Extensions(deps: DepList, i: nat, drop: set<nat>): set<set<nat>>
    requires i <= |deps|
  {
    set s: set<nat> | s <= UpTo(|deps|) && ValidCombo(deps, s) && s * UpTo(i) == Kept(deps, i, drop)
  }

  lemma KeptIsValid(deps: DepList, i: nat, drop: set<nat>)
    requires i <= |deps| && Closed(deps)
    ensures ValidCombo(deps, Kept(deps, i, drop))
  {
    var kept := Kept(deps, i, drop);
    forall k, d | k in kept && d in deps[k] ensures d in kept {
      assert deps[d] <= deps[k];
    }
  }

  /** A blocked operation is in none of the extensions. */
  lemma BlockedStep(deps: DepList, i: nat, drop: set<nat>)
    requires i < |deps| && Closed(deps) && drop <= UpTo(i)
    requires !(deps[i] !! drop)
    ensures Extensions(deps, i, drop) == Extensions(deps, i + 1, drop)
  {
    assert Kept(deps, i, drop) == Kept(deps, i + 1, drop);
    var d :| d in deps[i] && d in drop;
    forall s: set<nat> | s <= UpTo(|deps|) && ValidCombo(deps, s)
      ensures s * UpTo(i) == Kept(deps, i, drop) <==> s * UpTo(i + 1) == Kept(deps, i + 1, drop)
    {
      if s * UpTo(i) == Kept(deps, i, drop) {
        assert d !in s * UpTo(i);
        assert i !in s;
        assert s * UpTo(i + 1) == s * UpTo(i);
      }
      if s * UpTo(i + 1) == Kept(deps, i + 1, drop) {
        assert i !in s * UpTo(i + 1);
        assert s * UpTo(i + 1) == s * UpTo(i);
      }
    }
  }

  /** Keeping or dropping a free operation. */
  lemma KeptStep(deps: DepList, i: nat, drop: set<nat>)
    requires i < |deps| && Backward(deps) && drop <= UpTo(i)
    requires deps[i] !! drop
    ensures Kept(deps, i + 1, drop) == Kept(deps, i, drop) + {i}
    ensures Kept(deps, i + 1, drop + {i}) == Kept(deps, i, drop)
  {
    forall k: nat | k < i ensures deps[k] !! (drop + {i}) <==> deps[k] !! drop {
      assert i !in deps[k];
    }
  }

  /** A free operation splits the extensions into those with it and those without it. */
  lemma FreeStep(deps: DepList, i: nat, drop: set<nat>)
    requires i < |deps| && Backward(deps) && drop <= UpTo(i)
    requires deps[i] !! drop
    ensures Extensions(deps, i, drop) == Extensions(deps, i + 1, drop) + Extensions(deps, i + 1, drop + {i})
    ensures Extensions(deps, i + 1, drop) !! Extensions(deps, i + 1, drop + {i})
  {
    KeptStep(deps, i, drop);
    var kept := Kept(deps, i, drop);
    var all, with, without :=
      Extensions(deps, i, drop), Extensions(deps, i + 1, drop), Extensions(deps, i + 1, drop + {i});
    forall s: set<nat> ensures s in all <==> s in with || s in without {
      SplitAt(s, i, kept);
    }
    assert all == with + without;
    assert i in kept + {i} && i !in kept;
  }

  lemma SplitAt(s: set<nat>, i: nat, kept: set<nat>)
    requires kept <= UpTo(i)
    ensures s * UpTo(i) == kept <==> s * UpTo(i + 1) == kept || s * UpTo(i + 1) == kept + {i}
  {
    assert s * UpTo(i) == s * UpTo(i + 1) - {i};
    if i in s {
      assert s * UpTo(i + 1) == s * UpTo(i) + {i};
    }
  }

  lemma {:induction false} CountFromIsExact(deps: DepList, i: nat, drop: set<nat>)
    requires i <= |deps| && Closed(deps) && drop <= UpTo(i)
    ensures |Extensions(deps, i, drop)| == CountFrom(deps, 0, i, drop) + 1
    decreases |deps| - i
  {
    if i == |deps| {
      KeptIsValid(deps, i, drop);
      var kept := Kept(deps, i, drop);
      assert Extensions(deps, i, drop) == {kept} by {
        forall s: set<nat> | s <= UpTo(i) ensures s * UpTo(i) == s {}
      }
    } else if deps[i] !! drop {
      FreeStep(deps, i, drop);
      CountFromIsExact(deps, i + 1, drop);
      CountFromIsExact(deps, i + 1, drop + {i});
    } else {
      BlockedStep(deps, i, drop);
      CountFromIsExact(deps, i + 1, drop);
    }
  }

  /** count_all_combos counts each non-empty valid combination exactly once, although the
      operations it skips never enter the drop vector: transitivity makes up for them. */
  lemma CountAllIsBruteForce(deps: DepList)
    requires Closed(deps)
    ensures CountAll(deps) == |BruteForce(deps)|
  {
    CountFromIsExact(deps, 0, {});
    var all := Extensions(deps, 0, {});
    assert all == BruteForce(deps) + {{}} by {
      forall s: set<nat> ensures s in all <==> s in BruteForce(deps) + {{}} {
        assert s * UpTo(0) == {};
      }
    }
  }

  // ----- growing lists -----

  function Pow2(n: nat): (r: nat)
    ensures r > 0
  {
    if n == 0 then 1 else 2 * Pow2(n - 1)
  }

  ghost function Between(lo: set<nat>, hi: set<nat>): set<set<nat>> {
    set s: set<nat> | s <= hi && lo <= s
  }

  lemma {:induction false} CountBetween(lo: set<nat>, hi: set<nat>)
    requires lo <= hi
    ensures |lo| <= |hi| && |Between(lo, hi)| == Pow2(|hi| - |lo|)
    decreases |hi - lo|
  {
    assert |hi| == |lo| + |hi - lo| by { assert hi == lo + (hi - lo); }
    if hi == lo {
      forall s | s in Between(lo, hi) ensures s == lo {}
      assert Between(lo, hi) == {lo};
    } else {
      var x :| x in hi - lo;
      assert (hi - {x}) - lo == (hi - lo) - {x} && hi - (lo + {x}) == (hi - lo) - {x};
      CountBetween(lo, hi - {x});
      CountBetween(lo + {x}, hi);
      var with, without := Between(lo + {x}, hi), Between(lo, hi - {x});
      forall s: set<nat> ensures s in Between(lo, hi) <==> s in with || s in without {}
      assert Between(lo, hi) == with + without;
      assert with !! without;
    }
  }

  /** In a growing list the largest operation of a combination decides alone. */
  lemma LargestDecides(deps: DepList, combo: set<nat>, top: nat)
    requires Closed(deps) && Growing(deps)
    requires top in combo && top < |deps| && combo <= UpTo(top + 1)
    ensures ValidCombo(deps, combo) <==> deps[top] <= combo
  {
    if deps[top] <= combo {
      forall k | k in combo ensures deps[k] <= combo {
        assert deps[k] <= deps[top];
      }
    }
  }

  ghost function ValidBelow(deps: DepList, n: nat): set<set<nat>> {
    set s: set<nat> | s <= UpTo(n) && s != {} && ValidCombo(deps, s)
  }

  ghost function PowerSum(deps: DepList, n: nat): nat
    requires n <= |deps|
  {
    if n == 0 then 0
    else PowerSum(deps, n - 1) + if |deps[n - 1]| < n then Pow2(n - 1 - |deps[n - 1]|) else 0
  }

  lemma WithTop(deps: DepList, n: nat)
    requires n < |deps| && Closed(deps) && Growing(deps)
    ensures ValidBelow(deps, n + 1) == ValidBelow(deps, n) + Between(deps[n] + {n}, UpTo(n + 1))
    ensures ValidBelow(deps, n) !! Between(deps[n] + {n}, UpTo(n + 1))
  {
    var top := Between(deps[n] + {n}, UpTo(n + 1));
    forall s: set<nat> ensures s in ValidBelow(deps, n + 1) <==> s in ValidBelow(deps, n) || s in top {
      if n in s && s <= UpTo(n + 1) {
        LargestDecides(deps, s, n);
      }
    }
    assert ValidBelow(deps, n + 1) == ValidBelow(deps, n) + top;
    assert n !in UpTo(n);
  }

  lemma {:induction false} CountValidBelow(deps: DepList, n: nat)
    requires n <= |deps| && Closed(deps) && Growing(deps)
    ensures |ValidBelow(deps, n)| == PowerSum(deps, n)
  {
    if n == 0 {
      NothingBelowZero(deps);
    } else {
      CountValidBelow(deps, n - 1);
      CountStep(deps, n - 1);
    }
  }

  lemma NothingBelowZero(deps: DepList)
    ensures |ValidBelow(deps, 0)| == 0
  {
    assert ValidBelow(deps, 0) == {};
  }

  lemma CountStep(deps: DepList, n: nat)
    requires n < |deps| && Closed(deps) && Growing(deps)
    requires |ValidBelow(deps, n)| == PowerSum(deps, n)
    ensures |ValidBelow(deps, n + 1)| == PowerSum(deps, n + 1)
  {
    var below, top := ValidBelow(deps, n), Between(deps[n] + {n}, UpTo(n + 1));
    assert |ValidBelow(deps, n + 1)| == |below| + |top| by {
      WithTop(deps, n);
    }
    CountWithTop(deps, n);
  }

  lemma CountWithTop(deps: DepList, n: nat)
    requires n < |deps| && Backward(deps)
    ensures |deps[n]| <= n
    ensures |Between(deps[n] + {n}, UpTo(n + 1))| == Pow2(n - |deps[n]|)
  {
    assert n !in deps[n];
    UpToSize(n + 1);
    CountBetween(deps[n] + {n}, UpTo(n + 1));
  }

  /** For growing lists the number of crash states is the sum of 2^(k - |deps(k)|). */
  lemma CountAllIsPowerSum(deps: DepList)
    requires Closed(deps) && Growing(deps)
    ensures CountAll(deps) == PowerSum(deps, |deps|)
    ensures forall k :: 0 <= k < |deps| ==> |deps[k]| <= k
  {
    CountAllIsBruteForce(deps);
    CountValidBelow(deps, |deps|);
    assert BruteForce(deps) == ValidBelow(deps, |deps|);
    forall k | 0 <= k < |deps| ensures |deps[k]| <= k {
      CountWithTop(deps, k);
    }
  }

  // ----- dropping and keeping -----

  /** What is left after dropping ids: the largest valid combination without them. */
  ghost function Survivors(deps: DepList, ids: set<nat>): set<nat> {
    set k | k in UpTo(|deps|) && k !in ids && deps[k] !! ids
  }

  /** What keeping ids needs: the smallest valid combination with them. */
  ghost function Needed(deps: DepList, ids: set<nat>): set<nat>
    requires ids <= UpTo(|deps|)
  {
    ids + set k, d | k in ids && d in deps[k] :: d
  }

  ghost predicate GreatestValidAvoiding(deps: DepList, ids: set<nat>, combo: set<nat>) {
    && combo <= UpTo(|deps|) && ValidCombo(deps, combo) && combo !! ids
    && forall s: set<nat> :: s <= UpTo(|deps|) && ValidCombo(deps, s) && s !! ids ==> s <= combo
  }

  ghost predicate LeastValidContaining(deps: DepList, ids: set<nat>, combo: set<nat>) {
    && ids <= combo && ValidCombo(deps, combo)
    && forall s: set<nat> :: ids <= s && ValidCombo(deps, s) ==> combo <= s
  }

  lemma SurvivorsAreGreatest(deps: DepList, ids: set<nat>)
    requires Closed(deps)
    ensures GreatestValidAvoiding(deps, ids, Survivors(deps, ids))
  {
    var left := Survivors(deps, ids);
    forall k, d | k in left && d in deps[k] ensures d in left {
      assert deps[d] <= deps[k];
    }
  }

  lemma NeededIsLeast(deps: DepList, ids: set<nat>)
    requires Closed(deps) && ids <= UpTo(|deps|)
    ensures LeastValidContaining(deps, ids, Needed(deps, ids))
  {
    var need := Needed(deps, ids);
    forall k, e | k in need && k < |deps| && e in deps[k] ensures e in need {
      if k !in ids {
        var j :| j in ids && k in deps[j];
        assert deps[k] <= deps[j];
      }
    }
  }

  /** Dropping and keeping mirror each other. */
  lemma DropKeepDuality(deps: DepList, i: nat, j: nat)
    requires i < |deps| && j < |deps|
    ensures j in Survivors(deps, {i}) <==> i !in Needed(deps, {j})
  {
    assert Needed(deps, {j}) == {j} + deps[j];
  }
}
