/** ALCTestSuite: building the dependency list operation by operation with a dirty set
    that every sync cleans, extending it with the file system's pairs, and the queries
    that keep and drop operations. */
module TestSuite {
  import opened Ops
  import opened Deps
  import opened Closure
  import opened Combos

  // ----- one more operation -----

  lemma ExtendKeepsSuiteDeps(ops: seq<DiskOp>, op: DiskOp)
    ensures forall k :: 0 <= k < |ops| ==> SuiteDeps(ops + [op], k) == SuiteDeps(ops, k)
  {
    forall k, d: nat | 0 <= k < |ops| && d < k
      ensures SuiteDepends(ops + [op], k, d) <==> SuiteDepends(ops, k, d)
    {
      assert forall s :: d < s <= k ==> (ops + [op])[s] == ops[s];
    }
  }

  lemma FlushedGrows(ops: seq<DiskOp>, op: DiskOp, d: nat)
    requires d < |ops|
    ensures FlushedBySuite(ops + [op], d, |ops|) <==>
              FlushedBySuite(ops, d, |ops| - 1) || SuiteFlushes(op, ops[d])
  {
    var all := ops + [op];
    assert forall s :: 0 <= s < |ops| ==> all[s] == ops[s];
    if FlushedBySuite(ops, d, |ops| - 1) {
      var s :| d < s <= |ops| - 1 && SuiteFlushes(ops[s], ops[d]);
      assert SuiteFlushes(all[s], all[d]);
    }
    if SuiteFlushes(op, ops[d]) {
      assert SuiteFlushes(all[|ops|], all[d]);
    }
  }

  ghost predicate IsLatestSync(ops: seq<DiskOp>, latest: int) {
    && -1 <= latest < |ops|
    && (latest >= 0 ==> ops[latest].Sync?)
    && forall i :: latest < i < |ops| ==> !ops[i].Sync?
  }

  /** The dirty operations a new operation flushes. */
  ghost predicate NewlyFlushed(ops: seq<DiskOp>, op: DiskOp, d: nat) {
    d < |ops| && SuiteFlushes(op, ops[d]) && !FlushedBySuite(ops, d, |ops| - 1)
  }

  /** Clearing the dirty set loses nothing: what an earlier sync flushed comes back
      through the latest sync. */
  lemma NewSuiteDeps(ops: seq<DiskOp>, op: DiskOp, latest: int, flushed: set<nat>, found: set<nat>)
    requires IsLatestSync(ops, latest)
    requires forall d: nat :: d in flushed <==> NewlyFlushed(ops, op, d)
    requires forall e: nat :: e in found <==>
      e in flushed || exists d :: d in flushed && d < |ops| && e in SuiteDeps(ops, d)
    ensures SuiteDeps(ops + [op], |ops|) ==
              found + if latest >= 0 then SuiteDeps(ops, latest) + {latest} else {}
  {
    var all, k := ops + [op], |ops|;
    var mine := found + if latest >= 0 then SuiteDeps(ops, latest) + {latest} else {};
    forall e: nat | e in mine ensures SuiteDepends(all, k, e) {
      if e in flushed {
        FlushedGrows(ops, op, e);
      } else if e in found {
        var d :| d in flushed && e in SuiteDeps(ops, d);
        FlushedLater(ops, op, e, d);
      } else if e != latest {
        FlushedLater(ops, op, e, latest);
      }
    }
    forall e: nat | e < k && SuiteDepends(all, k, e) ensures e in mine {
      FlushedGrows(ops, op, e);
      if FlushedBySuite(ops, e, k - 1) {
        var s :| e < s <= k - 1 && SuiteFlushes(ops[s], ops[e]);
        assert SuiteDepends(ops, latest, e);
      }
    }
  }

  lemma FlushedLater(ops: seq<DiskOp>, op: DiskOp, e: nat, d: nat)
    requires d < |ops| && e in SuiteDeps(ops, d)
    ensures SuiteDepends(ops + [op], |ops|, e)
  {
    if !ops[e].Sync? {
      var s :| e < s <= d && SuiteFlushes(ops[s], ops[e]);
      assert SuiteFlushes((ops + [op])[s], (ops + [op])[e]);
    }
  }

  // ----- the dirty table -----

  type DirtyTable = map<int, set<nat>>

  /** Missing inodes have nothing dirty. */
  function At(dirty: DirtyTable, inode: int): set<nat> {
    if inode in dirty then dirty[inode] else {}
  }

  /** d is waiting for a sync: it belongs to inode and no sync so far flushed it. */
  ghost predicate IsDirty(ops: seq<DiskOp>, inode: int, d: nat) {
    && d < |ops| && IsDirtying(ops[d]) && Home(ops[d]) == inode
    && !FlushedBySuite(ops, d, |ops| - 1)
  }

  ghost predicate Tracks(dirty: DirtyTable, ops: seq<DiskOp>) {
    forall inode, d: nat :: d in At(dirty, inode) <==> IsDirty(ops, inode, d)
  }

  /** Operation k, if it dirties anything, is the only new thing that waits, at its own inode. */
  ghost predicate NowWaits(before: DirtyTable, after: DirtyTable, op: DiskOp, k: nat) {
    forall inode, d: nat :: d in At(after, inode) <==>
      d in At(before, inode) || (d == k && IsDirtying(op) && inode == Home(op))
  }

  /** What a sync flushed is the only thing that stopped waiting, and only at the synced inode. */
  ghost predicate NoLongerWaits(before: DirtyTable, after: DirtyTable, op: DiskOp, flushed: set<nat>) {
    forall inode, d: nat :: d in At(after, inode) <==>
      d in At(before, inode) && !(op.Sync? && inode == op.inode && d in flushed)
  }

  lemma DirtyStep(ops: seq<DiskOp>, op: DiskOp, before: DirtyTable, marked: DirtyTable, after: DirtyTable,
      flushed: set<nat>)
    requires Tracks(before, ops)
    requires forall d: nat :: d in flushed <==> NewlyFlushed(ops, op, d)
    requires NowWaits(before, marked, op, |ops|) && NoLongerWaits(marked, after, op, flushed)
    ensures Tracks(after, ops + [op])
  {
    forall inode, d: nat ensures d in At(after, inode) <==> IsDirty(ops + [op], inode, d) {
      assert d in At(marked, inode) <==> d in At(before, inode) || (d == |ops| && IsDirtying(op) && inode == Home(op));
      assert d in At(before, inode) <==> IsDirty(ops, inode, d);
      assert d in flushed <==> NewlyFlushed(ops, op, d);
      if d < |ops| {
        FlushedGrows(ops, op, d);
        assert (ops + [op])[d] == ops[d];
      }
    }
  }

  function Ids(list: seq<nat>): set<nat> {
    set id | id in list
  }

  class Suite {
    var ops: seq<DiskOp>
    var deps: DepList
    var vectors: seq<seq<bool>>
    var dirty: DirtyTable
    var latestSync: int
    var totalNumCombos: nat

    ghost predicate Building()
      reads this
    {
      && deps == SuiteDepList(ops)
      && Tracks(dirty, ops)
      && IsLatestSync(ops, latestSync)
    }

    /** The stored bit vectors always agree with the dependency sets. */
    ghost predicate Valid()
      reads this
    {
      |deps| == |ops| && InRange(deps) && vectors == AllBits(deps)
    }

    constructor (microOps: seq<DiskOp>)
      ensures Valid() && ops == microOps
      ensures deps == SuiteDepList(microOps)
    {
      ops, deps, vectors, dirty, latestSync, totalNumCombos := [], [], [], map[], -1, 0;
      new;
      for i := 0 to |microOps|
        invariant ops == microOps[..i]
        invariant Building()
      {
        AddOperation(microOps[i]);
        assert microOps[..i + 1] == microOps[..i] + [microOps[i]];
      }
      assert microOps[..|microOps|] == microOps;
      SuiteDepsClosed(microOps);
      StoreDepsAsBitVectors();
    }

    /** The constructor of one Operation: note it as dirty, compute what it depends on,
        then clear what it flushes. */
    method AddOperation(op: DiskOp)
      requires Building()
      modifies this
      ensures Building()
      ensures ops == old(ops) + [op]
    {
      var k: nat := |ops|;
      UpdateDirtyWriteCollection(op);
      ghost var marked := dirty;
      var mine, flushed := CalculateDependencies(op);
      ClearDirtyWriteCollection(op, flushed);
      DirtyStep(ops, op, old(dirty), marked, dirty, flushed);
      deps := deps + [mine];
      ops := ops + [op];
      ExtendKeepsSuiteDeps(old(ops), op);
    }

    method UpdateDirtyWriteCollection(op: DiskOp)
      modifies this`dirty
      ensures NowWaits(old(dirty), dirty, op, |ops|)
    {
      if IsDirtying(op) {
        dirty := dirty[Home(op) := At(dirty, Home(op)) + {|ops|}];
      }
    }

    method CalculateDependencies(op: DiskOp) returns (mine: set<nat>, flushed: set<nat>)
      requires deps == SuiteDepList(ops) && IsLatestSync(ops, latestSync)
      requires op.Sync? ==> forall d: nat :: d in At(dirty, op.inode) <==> IsDirty(ops, op.inode, d)
      ensures mine == SuiteDeps(ops + [op], |ops|)
      ensures forall d: nat :: d in flushed <==> NewlyFlushed(ops, op, d)
    {
      mine, flushed := {}, {};
      if op.Sync? {
        mine, flushed := CollectFlushed(op);
      }
      NewSuiteDeps(ops, op, latestSync, flushed, mine);
      if latestSync >= 0 {
        mine := mine + deps[latestSync] + {latestSync};
      }
    }

    /** The dirty operations inside the range of a sync, and all they depend on. */
    method CollectFlushed(op: DiskOp) returns (found: set<nat>, flushed: set<nat>)
      requires op.Sync?
      requires |deps| == |ops| && forall d :: d in At(dirty, op.inode) ==> d < |ops|
      ensures forall d: nat :: d in flushed <==>
        d in At(dirty, op.inode) && InSyncRange(ops[d], op.offset, op.count)
      ensures forall e: nat :: e in found <==>
        e in flushed || exists d :: d in flushed && e in deps[d]
    {
      found, flushed := {}, {};
      var rest := At(dirty, op.inode);
      while rest != {}
        invariant rest <= At(dirty, op.inode)
        invariant forall d: nat :: d in flushed <==>
          d in At(dirty, op.inode) - rest && InSyncRange(ops[d], op.offset, op.count)
        invariant forall e: nat :: e in found <==>
          e in flushed || exists d :: d in flushed && e in deps[d]
        decreases rest
      {
        var w :| w in rest;
        if InSyncRange(ops[w], op.offset, op.count) {
          found := found + deps[w] + {w};
          flushed := flushed + {w};
        }
        rest := rest - {w};
      }
    }

    method ClearDirtyWriteCollection(op: DiskOp, flushed: set<nat>)
      modifies this`dirty, this`latestSync
      ensures NoLongerWaits(old(dirty), dirty, op, flushed)
      ensures latestSync == if op.Sync? then |ops| else old(latestSync)
    {
      if op.Sync? {
        dirty := dirty[op.inode := At(dirty, op.inode) - flushed];
        latestSync := |ops|;
        assert forall inode :: At(dirty, inode) == At(old(dirty), inode) - if inode == op.inode then flushed else {};
      }
    }

    method StoreDepsAsBitVectors()
      requires |deps| == |ops|
      modifies this`vectors
      ensures vectors == AllBits(deps)
    {
      vectors := [];
      for k := 0 to |deps|
        invariant |vectors| == k && forall i :: 0 <= i < k ==> vectors[i] == Bits(deps[i], |deps|)
      {
        vectors := vectors + [Bits(deps[k], |deps|)];
      }
    }

    /** add_deps_to_ops: insert the pairs, then one forward pass that also refreshes the bit vectors. */
    method AddDepsToOps(pairs: seq<Pair>)
      requires Valid() && PairsInRange(pairs, |ops|)
      modifies this`deps, this`vectors
      ensures Valid()
      ensures deps == WithPairs(old(deps), pairs)
    {
      for i := 0 to |pairs|
        invariant deps == AddPairs(old(deps), pairs[..i]) && vectors == old(vectors)
      {
        assert pairs[..i + 1][..i] == pairs[..i] && pairs[i] in pairs;
        deps := AddPair(deps, pairs[i]);
      }
      assert pairs[..|pairs|] == pairs;
      ghost var inserted := deps;
      AddPairsInRange(old(deps), pairs);
      for k := 0 to |ops|
        invariant deps == Recompute(inserted, k) && |deps| == |ops|
        invariant |vectors| == |ops|
        invariant forall i :: 0 <= i < k ==> vectors[i] == Bits(deps[i], |deps|)
      {
        RecomputeInRange(inserted, k);
        var row := AbsorbRow(k);
        deps := deps[k := row];
        vectors := vectors[k := Bits(row, |ops|)];
      }
      RecomputeInRange(inserted, |ops|);
      assert vectors == AllBits(deps);
    }

    /** The inner loop runs over the dependencies that k had when it started. */
    method AbsorbRow(k: nat) returns (row: set<nat>)
      requires k < |deps| && InRange(deps)
      ensures row == Absorb(deps, k)
    {
      row := deps[k];
      var rest := deps[k];
      while rest != {}
        invariant rest <= deps[k]
        invariant row == deps[k] + set d, e | d in deps[k] - rest && d < |deps| && e in deps[d] :: e
        decreases rest
      {
        var d :| d in rest;
        row := row + deps[d];
        rest := rest - {d};
      }
    }

    /** test_validity, on the operations that the ids name. */
    method TestComboValidity(combo: seq<nat>) returns (valid: bool)
      requires |deps| == |ops| && forall i :: 0 <= i < |combo| ==> combo[i] < |ops|
      ensures valid <==> ValidCombo(deps, Ids(combo))
    {
      var all := Ids(combo);
      for i := 0 to |combo|
        invariant forall j :: 0 <= j < i ==> deps[combo[j]] <= all
      {
        if !(deps[combo[i]] <= all) {
          assert combo[i] in all;
          return false;
        }
      }
      return true;
    }

    /** count_combos works on bit vectors and a running total. */
    method CountCombos(start: int, end: int, dropVector: seq<bool>, ghost drop: set<nat>)
      requires Valid() && -1 <= end < |ops|
      requires drop <= UpTo(|ops|) && dropVector == Bits(drop, |ops|)
      modifies this`totalNumCombos
      ensures totalNumCombos == old(totalNumCombos) + Count(deps, start, end, drop)
      decreases |ops| - end
    {
      hide Bits, AllBits, And, CountBits, CountFrom;
      if end >= start {
        totalNumCombos := totalNumCombos + 1;
      }
      CountFromEnd(deps, start);
      if end == |ops| - 1 {
        return;
      }
      var local := dropVector;
      ghost var dropped := drop;
      for i := end + 1 to |ops|
        invariant dropped <= UpTo(|ops|) && local == Bits(dropped, |ops|)
        invariant totalNumCombos + CountFrom(deps, start, i, dropped) ==
                  old(totalNumCombos) + Count(deps, start, end, drop)
      {
        CountFromStep(deps, start, i, dropped);
        DisjointBits(deps[i], dropped, |ops|);
        if CountBits(And(vectors[i], local)) == 0 {
          CountCombos(start, i, local, dropped);
          SetBit(dropped, i, |ops|);
          local := local[i := true];
          dropped := dropped + {i};
        }
      }
    }

    method CountAllCombos() returns (n: nat)
      requires Valid()
      modifies this`totalNumCombos
      ensures n == CountAll(deps)
      ensures Closed(deps) ==> n == |BruteForce(deps)|
    {
      totalNumCombos := 0;
      CountCombos(0, -1, Bits({}, |ops|), {});
      n := totalNumCombos;
      if Closed(deps) {
        CountAllIsBruteForce(deps);
      }
    }

    /** drop_list_of_ops: add dependents until the drop set stops growing. */
    method DropListOfOps(ids: seq<nat>) returns (left: set<nat>)
      requires Valid() && forall id :: id in ids ==> id < |ops|
      ensures GreatestValidAvoiding(deps, Ids(ids), left)
      ensures Closed(deps) ==> left == Survivors(deps, Ids(ids))
    {
      var all := UpTo(|ops|);
      ghost var unwanted := Ids(ids);
      var drop := Ids(ids);
      var prevLen, dropLen := |drop|, 0;
      while dropLen != prevLen
        invariant unwanted <= drop <= all
        invariant Doomed(deps, unwanted, drop)
        invariant dropLen == prevLen ==> NothingMoreToDrop(deps, drop, drop)
        decreases |all| - |drop|, dropLen != prevLen
      {
        prevLen := |drop|;
        ghost var before := drop;
        drop := Sweep(drop, unwanted);
        dropLen := |drop|;
        SubsetSizes(before, drop);
        SubsetSizes(drop, all);
      }
      left := all - drop;
      if Closed(deps) {
        SurvivorsAreGreatest(deps, unwanted);
      }
    }

    /** One round over all operations, in any order, growing the drop set on the way. */
    method Sweep(drop: set<nat>, ghost unwanted: set<nat>) returns (grown: set<nat>)
      requires Valid() && drop <= UpTo(|ops|) && Doomed(deps, unwanted, drop)
      ensures drop <= grown <= UpTo(|ops|)
      ensures Doomed(deps, unwanted, grown) && NothingMoreToDrop(deps, drop, grown)
    {
      grown := drop;
      var rest := UpTo(|ops|);
      while rest != {}
        invariant rest <= UpTo(|ops|) && drop <= grown <= UpTo(|ops|)
        invariant Doomed(deps, unwanted, grown)
        invariant forall k :: k in UpTo(|ops|) - rest && !(deps[k] !! drop) ==> k in grown
        decreases rest
      {
        var k :| k in rest;
        if !(deps[k] !! grown) {
          grown := grown + {k};
        }
        rest := rest - {k};
      }
    }

    /** keep_list_of_ops; ok says that its closing assertion holds, which it does for closed lists. */
    method KeepListOfOps(ids: seq<nat>) returns (ok: bool, keep: set<nat>)
      requires Valid() && forall id :: id in ids ==> id < |ops|
      ensures keep == Needed(deps, Ids(ids)) && (ok <==> ValidCombo(deps, keep))
      ensures Closed(deps) ==> ok && LeastValidContaining(deps, Ids(ids), keep)
    {
      keep := Ids(ids);
      ghost var wanted := keep;
      var needed: set<nat> := {};
      var rest := keep;
      while rest != {}
        invariant rest <= wanted
        invariant needed == set k, d | k in wanted - rest && d in deps[k] :: d
        decreases rest
      {
        var k :| k in rest;
        needed := needed + deps[k];
        rest := rest - {k};
      }
      keep := keep + needed;
      ok := forall k :: k in keep ==> deps[k] <= keep;
      if Closed(deps) {
        NeededIsLeast(deps, wanted);
      }
    }
  }

  /** Every valid combination without the unwanted operations also lacks the dropped ones. */
  ghost predicate Doomed(deps: DepList, unwanted: set<nat>, drop: set<nat>) {
    forall s: set<nat> :: s <= UpTo(|deps|) && ValidCombo(deps, s) && s !! unwanted ==> s !! drop
  }

  ghost predicate NothingMoreToDrop(deps: DepList, drop: set<nat>, grown: set<nat>) {
    forall k :: k in UpTo(|deps|) && !(deps[k] !! drop) ==> k in grown
  }

  lemma SubsetSizes(a: set<nat>, b: set<nat>)
    requires a <= b
    ensures |a| <= |b| && (|a| == |b| ==> a == b)
  {
    assert b == a + (b - a);
  }
}
