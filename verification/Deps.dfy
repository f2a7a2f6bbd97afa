/** Dependency lists as values: what it means for them to point backward, to be
    transitively closed, and the closed forms of the two dependency calculators. */
module Deps {
  import opened Ops

  /** deps[k] is the set of operations that have to be present whenever k is. */
  type DepList = seq<set<nat>>

  ghost predicate Backward(deps: DepList) {
    forall k, d {:trigger d in deps[k]} :: 0 <= k < |deps| && d in deps[k] ==> d < k
  }

  ghost predicate Transitive(deps: DepList) {
    forall k, d :: 0 <= k < |deps| && d in deps[k] && d < |deps| ==> deps[d] <= deps[k]
  }

  ghost predicate Closed(deps: DepList) {
    Backward(deps) && Transitive(deps)
  }

  /** Every id names an operation of the list. */
  ghost predicate InRange(deps: DepList) {
    forall k, d {:trigger d in deps[k]} :: 0 <= k < |deps| && d in deps[k] ==> d < |deps|
  }

  ghost predicate Growing(deps: DepList) {
    forall j, k :: 0 <= j <= k < |deps| ==> deps[j] <= deps[k]
  }

  ghost predicate Contained(a: DepList, b: DepList) {
    |a| == |b| && forall k :: 0 <= k < |a| ==> a[k] <= b[k]
  }

  predicate Below(i: nat, n: nat) { i < n }

  /** The ids of the first n operations. */
  function UpTo(n: nat): (r: set<nat>)
    ensures forall i: nat :: i in r <==> i < n
  {
    var r := set i: nat | i < n && Below(i, n);
    assert forall i: nat :: i < n ==> Below(i, n);
    r
  }

  lemma {:induction false} UpToSize(n: nat)
    ensures |UpTo(n)| == n
  {
    if n == 0 {
      assert UpTo(0) == {};
    } else {
      UpToSize(n - 1);
      assert UpTo(n) == UpTo(n - 1) + {n - 1};
    }
  }

  // ----- closed forms -----

  ghost predicate FlushedBySuite(ops: seq<DiskOp>, d: nat, last: int)
    requires d < |ops| && last < |ops|
  {
    exists s :: d < s <= last && SuiteFlushes(ops[s], ops[d])
  }

  /** Closed form of what building the suite alone computes. */
  ghost predicate SuiteDepends(ops: seq<DiskOp>, k: nat, d: nat)
    requires k < |ops|
  {
    d < k && (ops[d].Sync? || FlushedBySuite(ops, d, k))
  }

  ghost function SuiteDeps(ops: seq<DiskOp>, k: nat): set<nat>
    requires k < |ops|
  {
    set d: nat | d < k && SuiteDepends(ops, k, d)
  }

  ghost predicate FlushedByFs(ops: seq<DiskOp>, d: nat, last: int)
    requires d < |ops| && last < |ops|
  {
    exists s :: d < s <= last && FsFlushes(ops[s], ops[d])
  }

  /** Closed form of the relation after set_fs: an operation needs every earlier
      sync and stdout, and everything that some sync up to and including itself has flushed. */
  ghost predicate FsDepends(ops: seq<DiskOp>, k: nat, d: nat)
    requires k < |ops|
  {
    d < k && (ops[d].Sync? || ops[d].Stdout? || FlushedByFs(ops, d, k))
  }

  ghost function FsDeps(ops: seq<DiskOp>, k: nat): set<nat>
    requires k < |ops|
  {
    set d: nat | d < k && FsDepends(ops, k, d)
  }

  ghost function FsDepList(ops: seq<DiskOp>): DepList {
    seq(|ops|, k requires 0 <= k < |ops| => FsDeps(ops, k))
  }

  ghost function SuiteDepList(ops: seq<DiskOp>): DepList {
    seq(|ops|, k requires 0 <= k < |ops| => SuiteDeps(ops, k))
  }

  lemma FsDepsClosed(ops: seq<DiskOp>)
    ensures Closed(FsDepList(ops))
    ensures Growing(FsDepList(ops))
  {
    var deps := FsDepList(ops);
    forall j, k | 0 <= j <= k < |deps| ensures deps[j] <= deps[k] {
      forall d | d in deps[j] ensures d in deps[k] { assert FsDepends(ops, k, d); }
    }
  }

  lemma SuiteDepsClosed(ops: seq<DiskOp>)
    ensures Closed(SuiteDepList(ops))
    ensures Growing(SuiteDepList(ops))
  {
    var deps := SuiteDepList(ops);
    forall j, k | 0 <= j <= k < |deps| ensures deps[j] <= deps[k] {
      forall d | d in deps[j] ensures d in deps[k] { assert SuiteDepends(ops, k, d); }
    }
  }

  /** The suite's own relation adds nothing to the file system's. */
  lemma SuiteWithinFs(ops: seq<DiskOp>)
    requires RealInodes(ops)
    ensures Contained(SuiteDepList(AsSuiteOps(ops)), FsDepList(ops))
  {
    var view := AsSuiteOps(ops);
    forall k | 0 <= k < |ops| ensures SuiteDeps(view, k) <= FsDeps(ops, k) {
      forall d | d in SuiteDeps(view, k) ensures d in FsDeps(ops, k) {
        if !view[d].Sync? {
          var s :| d < s <= k && SuiteFlushes(view[s], view[d]);
          assert FsFlushes(ops[s], ops[d]);
        }
      }
    }
  }
}
