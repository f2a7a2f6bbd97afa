/** defaultfs.get_deps: a chain through the last barrier plus a backward scan that stops
    at the first earlier sync covering the same range; and the closed form that the
    scan, the chain, the suite's own dependencies and one forward pass add up to. */
module DefaultFsDeps {
  import opened Ops
  import opened Deps
  import opened Closure

  predicate IsBarrier(op: DiskOp) { op.Sync? || op.Stdout? }

  predicate Covers(c: DiskOp, s: DiskOp) {
    && c.Sync? && s.Sync? && c.inode == s.inode
    && c.offset <= s.offset && c.offset + c.count >= s.offset + s.count
  }

  /** The backward scan from the sync at i gets as far as j. */
  ghost predicate Scanned(ops: seq<DiskOp>, i: nat, j: nat)
    requires i < |ops|
  {
    j < i && ops[i].Sync? && forall c :: j < c < i ==> !Covers(ops[c], ops[i])
  }

  /** What the two assertions inside the scan demand of the sync's system call. */
  predicate CallFits(s: DiskOp, d: DiskOp) {
    s.Sync? && FsFlushes(s, d) ==>
      && (d.Truncate? ==> s.call != RangeSync)
      && (IsEntryOp(d) ==> s.call == Fsync || s.call == GlobalSync)
  }

  ghost predicate ScanAssertionsHold(ops: seq<DiskOp>) {
    forall i, j {:trigger Scanned(ops, i, j)} :: 0 <= i < |ops| && 0 <= j && Scanned(ops, i, j) ==>
      CallFits(ops[i], ops[j])
  }

  ghost predicate IsLastBarrier(ops: seq<DiskOp>, i: nat, b: int)
    requires i <= |ops|
  {
    && -1 <= b < i
    && (b >= 0 ==> IsBarrier(ops[b]))
    && forall j :: b < j < i ==> !IsBarrier(ops[j])
  }

  /** hidden_dependencies of operation i. */
  ghost predicate IsHidden(ops: seq<DiskOp>, i: nat, j: nat)
    requires i < |ops|
  {
    j < i && (IsLastBarrier(ops, i, j) || (Scanned(ops, i, j) && FsFlushes(ops[i], ops[j])))
  }

  method GetDeps(ops: seq<DiskOp>) returns (hidden: DepList)
    requires ScanAssertionsHold(ops)
    ensures |hidden| == |ops|
    ensures forall i, j: nat :: 0 <= i < |ops| ==> (j in hidden[i] <==> IsHidden(ops, i, j))
  {
    hidden := [];
    var lastSync := -1;
    for i := 0 to |ops|
      invariant |hidden| == i && IsLastBarrier(ops, i, lastSync)
      invariant forall k, j: nat :: 0 <= k < i ==> (j in hidden[k] <==> IsHidden(ops, k, j))
    {
      var mine: set<nat> := {};
      if lastSync != -1 {
        mine := {lastSync};
      }
      if ops[i].Sync? {
        var flushed := ScanBack(ops, i);
        mine := mine + flushed;
      }
      if IsBarrier(ops[i]) {
        lastSync := i;
      }
      hidden := hidden + [mine];
    }
  }

  /** The scan from i - 1 down to 0 with its early break. */
  method ScanBack(ops: seq<DiskOp>, i: nat) returns (flushed: set<nat>)
    requires i < |ops| && ops[i].Sync? && ScanAssertionsHold(ops)
    ensures forall j: nat :: j in flushed <==> Scanned(ops, i, j) && FsFlushes(ops[i], ops[j])
  {
    flushed := {};
    var s := ops[i];
    var j := i;
    while j > 0
      invariant 0 <= j <= i
      invariant forall c :: j <= c < i ==> !Covers(ops[c], s)
      invariant forall d: nat :: d in flushed <==> j <= d < i && FsFlushes(s, ops[d])
    {
      j := j - 1;
      assert Scanned(ops, i, j);
      match ops[j] {
        case Sync(inode, offset, count, _) =>
          if inode == s.inode && offset <= s.offset && offset + count >= s.offset + s.count {
            assert Covers(ops[j], s);
            break;
          }
        case Truncate(inode, _, _) =>
          if inode == s.inode {
            assert s.call in {Fsync, Fdatasync, GlobalSync};
            flushed := flushed + {j};
          }
        case Write(inode, offset, _, _) =>
          if inode == s.inode && offset >= s.offset && offset <= s.offset + s.count {
            flushed := flushed + {j};
          }
        case CreateEntry(parent, _, _) =>
          if parent == s.inode {
            assert s.call in {Fsync, GlobalSync};
            flushed := flushed + {j};
          }
        case DeleteEntry(parent, _, _) =>
          if parent == s.inode {
            assert s.call in {Fsync, GlobalSync};
            flushed := flushed + {j};
          }
        case Stdout(_) =>
      }
    }
  }

  // ----- the closed form -----

  /** The pairs that set_fs passes on. */
  ghost predicate ArePairsOf(ops: seq<DiskOp>, pairs: seq<Pair>) {
    forall i: nat, j: nat {:trigger (i, j) in pairs} :: (i, j) in pairs <==> i < |ops| && IsHidden(ops, i, j)
  }

  /** The pairs of a scan that never breaks and a chain that records every earlier barrier. */
  ghost predicate AreFullScanPairsOf(ops: seq<DiskOp>, pairs: seq<Pair>) {
    forall i: nat, j: nat {:trigger (i, j) in pairs} ::
      (i, j) in pairs <==> i < |ops| && j < i && (IsBarrier(ops[j]) || FsFlushes(ops[i], ops[j]))
  }

  /** At least the hidden pairs, at most the closed form. */
  ghost predicate Sandwiched(ops: seq<DiskOp>, pairs: seq<Pair>) {
    && (forall i: nat, j: nat {:trigger (i, j) in pairs} :: (i, j) in pairs ==> i < |ops| && FsDepends(ops, i, j))
    && (forall i: nat, j: nat {:trigger IsHidden(ops, i, j)} :: i < |ops| && IsHidden(ops, i, j) ==> (i, j) in pairs)
  }

  lemma {:induction false} LastBarrierExists(ops: seq<DiskOp>, i: nat, d: nat) returns (b: nat)
    requires d < i <= |ops| && IsBarrier(ops[d])
    ensures d <= b < i && IsLastBarrier(ops, i, b)
  {
    if IsBarrier(ops[i - 1]) {
      b := i - 1;
    } else {
      b := LastBarrierExists(ops, i - 1, d);
    }
  }

  lemma HiddenIsSandwiched(ops: seq<DiskOp>, pairs: seq<Pair>)
    requires ArePairsOf(ops, pairs) || AreFullScanPairsOf(ops, pairs)
    ensures Sandwiched(ops, pairs)
  {
    forall i: nat, j: nat | (i, j) in pairs ensures i < |ops| && FsDepends(ops, i, j) {
      if !IsBarrier(ops[j]) {
        assert FlushedByFs(ops, j, i);
      }
    }
    forall i: nat, j: nat | i < |ops| && IsHidden(ops, i, j) ensures (i, j) in pairs {}
  }

  lemma SandwichedPairs(ops: seq<DiskOp>, pairs: seq<Pair>)
    requires Sandwiched(ops, pairs)
    ensures PairsInRange(pairs, |ops|) && PairsBackward(pairs)
    ensures HasPairs(FsDepList(ops), pairs)
  {
    forall p: Pair | p in pairs ensures p.1 < p.0 < |ops| && p.1 in FsDeps(ops, p.0) {
      assert p == (p.0, p.1);
    }
  }

  /** Every closed list with the hidden pairs has at least the dependencies of the closed form:
      the chain reaches all earlier barriers, and what the early break skips is flushed by the
      covering sync, which is itself an earlier barrier. */
  lemma {:induction false} ClosedFormIsReached(ops: seq<DiskOp>, pairs: seq<Pair>, r: DepList, k: nat, d: nat)
    requires Sandwiched(ops, pairs) && |r| == |ops| && Closed(r) && HasPairs(r, pairs)
    requires k < |ops| && FsDepends(ops, k, d)
    ensures d in r[k]
    decreases k
  {
    if IsBarrier(ops[d]) {
      var b := LastBarrierExists(ops, k, d);
      assert IsHidden(ops, k, b);
      assert (k, b) in pairs;
      if d != b {
        ClosedFormIsReached(ops, pairs, r, b, d);
      }
    } else {
      var s :| d < s <= k && FsFlushes(ops[s], ops[d]);
      if s < k {
        ReachedThrough(ops, pairs, r, k, s, d);
      } else if Scanned(ops, k, d) {
        assert IsHidden(ops, k, d);
        assert (k, d) in pairs;
      } else {
        var c :| d < c < k && Covers(ops[c], ops[k]);
        assert FsFlushes(ops[c], ops[d]);
        ReachedThrough(ops, pairs, r, k, c, d);
      }
    }
  }

  lemma {:induction false} ReachedThrough(ops: seq<DiskOp>, pairs: seq<Pair>, r: DepList, k: nat, s: nat, d: nat)
    requires Sandwiched(ops, pairs) && |r| == |ops| && Closed(r) && HasPairs(r, pairs)
    requires d < s < k < |ops| && FsFlushes(ops[s], ops[d])
    ensures d in r[k]
    decreases k, 0
  {
    var b := LastBarrierExists(ops, k, s);
    assert IsHidden(ops, k, b);
    assert (k, b) in pairs;
    assert FlushedByFs(ops, d, b);
    ClosedFormIsReached(ops, pairs, r, b, d);
  }

  /** After set_fs the dependency relation is exactly the closed form, for every list of pairs
      between the scan's and the closed form's own. */
  lemma SetFsClosedForm(ops: seq<DiskOp>, pairs: seq<Pair>)
    requires RealInodes(ops) && Sandwiched(ops, pairs)
    ensures PairsInRange(pairs, |ops|)
    ensures WithPairs(SuiteDepList(AsSuiteOps(ops)), pairs) == FsDepList(ops)
  {
    var view := AsSuiteOps(ops);
    var fs := FsDepList(ops);
    SandwichedPairs(ops, pairs);
    SuiteDepsClosed(view);
    SuiteWithinFs(ops);
    FsDepsClosed(ops);
    WithPairsIsLeastClosure(SuiteDepList(view), pairs);
    var r := WithPairs(SuiteDepList(view), pairs);
    assert Contained(r, fs);
    forall k | 0 <= k < |ops| ensures r[k] == fs[k] {
      forall d | d in fs[k] ensures d in r[k] {
        ClosedFormIsReached(ops, pairs, r, k, d);
      }
      assert r[k] <= fs[k];
    }
  }

  /** Breaking the scan at a covering sync and remembering only the last barrier give the
      same relation as scanning the whole history for every operation. */
  lemma EarlyBreakLosesNothing(ops: seq<DiskOp>, scanned: seq<Pair>, full: seq<Pair>)
    requires RealInodes(ops) && ArePairsOf(ops, scanned) && AreFullScanPairsOf(ops, full)
    ensures PairsInRange(scanned, |ops|) && PairsInRange(full, |ops|)
    ensures WithPairs(SuiteDepList(AsSuiteOps(ops)), scanned) == WithPairs(SuiteDepList(AsSuiteOps(ops)), full)
  {
    HiddenIsSandwiched(ops, scanned);
    HiddenIsSandwiched(ops, full);
    SetFsClosedForm(ops, scanned);
    SetFsClosedForm(ops, full);
  }
}
