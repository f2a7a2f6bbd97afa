/** Lists of lists and their flat numbering: the (micro op, disk op) pairs against the single
    running index of the explorer. */
module Flat {

  function Flatten<T>(xs: seq<seq<T>>): seq<T> {
    if |xs| == 0 then [] else Flatten(xs[..|xs| - 1]) + xs[|xs| - 1]
  }

  /** The number of elements before list i. */
  function Before<T>(xs: seq<seq<T>>, i: nat): nat
    requires i <= |xs|
  {
    if i == 0 then 0 else Before(xs, i - 1) + |xs[i - 1]|
  }

  predicate SameShape<T, U>(xs: seq<seq<T>>, ys: seq<seq<U>>) {
    |xs| == |ys| && forall i :: 0 <= i < |xs| ==> |xs[i]| == |ys[i]|
  }

  lemma {:induction false} BeforeGrows<T>(xs: seq<seq<T>>, i: nat, j: nat)
    requires i < j <= |xs|
    ensures Before(xs, i) + |xs[i]| <= Before(xs, j)
    decreases j
  {
    if i < j - 1 {
      BeforeGrows(xs, i, j - 1);
    }
  }

  lemma {:induction false} BeforeSameShape<T, U>(xs: seq<seq<T>>, ys: seq<seq<U>>, i: nat)
    requires SameShape(xs, ys) && i <= |xs|
    ensures Before(xs, i) == Before(ys, i)
  {
    if i == 0 {
    } else {
      BeforeSameShape(xs, ys, i - 1);
    }
  }

  lemma {:induction false} BeforePrefix<T>(xs: seq<seq<T>>, i: nat, n: nat)
    requires i <= n <= |xs|
    ensures Before(xs[..n], i) == Before(xs, i)
  {
    if i == 0 {
    } else {
      BeforePrefix(xs, i - 1, n);
    }
  }

  lemma {:induction false} FlattenLength<T>(xs: seq<seq<T>>)
    ensures |Flatten(xs)| == Before(xs, |xs|)
    decreases |xs|
  {
    if |xs| == 0 {
    } else {
      var n := |xs| - 1;
      FlattenLength(xs[..n]);
      BeforePrefix(xs, n, n);
    }
  }

  lemma {:induction false} FlattenAt<T>(xs: seq<seq<T>>, i: nat, j: nat)
    requires i < |xs| && j < |xs[i]|
    ensures Before(xs, i) + j < |Flatten(xs)| && Flatten(xs)[Before(xs, i) + j] == xs[i][j]
    decreases |xs|
  {
    var n := |xs| - 1;
    FlattenLength(xs[..n]);
    BeforePrefix(xs, n, n);
    if i < n {
      FlattenAt(xs[..n], i, j);
      BeforePrefix(xs, i, n);
    }
  }

  lemma {:induction false} FlattenUpdate<T>(xs: seq<seq<T>>, i: nat, j: nat, x: T)
    requires i < |xs| && j < |xs[i]|
    ensures Before(xs, i) + j < |Flatten(xs)|
    ensures Flatten(xs[i := xs[i][j := x]]) == Flatten(xs)[Before(xs, i) + j := x]
    decreases |xs|
  {
    var n := |xs| - 1;
    FlattenAt(xs, i, j);
    FlattenLength(xs[..n]);
    if i == n {
      BeforePrefix(xs, n, n);
      assert xs[i := xs[i][j := x]][..n] == xs[..n];
    } else {
      FlattenUpdate(xs[..n], i, j, x);
      BeforePrefix(xs, i, n);
      assert xs[i := xs[i][j := x]][..n] == xs[..n][i := xs[i][j := x]];
    }
  }

  lemma {:induction false} FlattenPrefix<T>(xs: seq<seq<T>>, n: nat)
    requires n <= |xs|
    ensures Flatten(xs[..n]) <= Flatten(xs)
    decreases |xs|
  {
    if n == |xs| {
      assert xs[..n] == xs;
    } else {
      var m := |xs| - 1;
      FlattenPrefix(xs[..m], n);
      assert xs[..m][..n] == xs[..n];
    }
  }

  /** The pair (i, j) has the running index single. */
  predicate Numbers<T>(xs: seq<seq<T>>, i: nat, j: nat, single: nat) {
    i < |xs| && j < |xs[i]| && Before(xs, i) + j == single
  }

  lemma PairUnique<T>(xs: seq<seq<T>>, i: nat, j: nat, i': nat, j': nat, single: nat)
    requires Numbers(xs, i, j, single) && Numbers(xs, i', j', single)
    ensures i == i' && j == j'
  {
    if i < i' {
      BeforeGrows(xs, i, i');
    } else if i' < i {
      BeforeGrows(xs, i', i);
    }
  }

  lemma {:induction false} PairExists<T>(xs: seq<seq<T>>, single: nat, n: nat) returns (i: nat, j: nat)
    requires n <= |xs| && single < Before(xs, n)
    ensures i < n && Numbers(xs, i, j, single)
  {
    if single >= Before(xs, n - 1) {
      i, j := n - 1, single - Before(xs, n - 1);
    } else {
      i, j := PairExists(xs, single, n - 1);
    }
  }

  /** dops_single: the running index of a pair. */
  method Single<T>(xs: seq<seq<T>>, i: nat, j: nat) returns (single: nat)
    requires i < |xs| && j < |xs[i]|
    ensures Numbers(xs, i, j, single)
    ensures single < |Flatten(xs)| && Flatten(xs)[single] == xs[i][j]
  {
    var seen := 0;
    for k := 0 to i
      invariant seen == Before(xs, k)
    {
      seen := seen + |xs[k]|;
    }
    FlattenAt(xs, i, j);
    return seen + j;
  }

  /** dops_double: the only pair with the given running index. */
  method Double<T>(xs: seq<seq<T>>, single: nat) returns (i: nat, j: nat)
    requires single < |Flatten(xs)|
    ensures Numbers(xs, i, j, single)
    ensures forall i': nat, j': nat :: Numbers(xs, i', j', single) ==> i' == i && j' == j
  {
    var seen := 0;
    FlattenLength(xs);
    for k := 0 to |xs|
      invariant seen == Before(xs, k) <= single
    {
      if single < seen + |xs[k]| {
        i, j := k, single - seen;
        forall i': nat, j': nat | Numbers(xs, i', j', single) ensures i' == i && j' == j {
          PairUnique(xs, i, j, i', j', single);
        }
        return;
      }
      seen := seen + |xs[k]|;
    }
    assert false;
  }
}
