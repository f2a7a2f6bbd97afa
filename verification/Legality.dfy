/** When a crash state that leaves some operations out is legal under the default file
    system's dependencies. */
module Legality {
  import opened Ops
  import opened Deps
  import opened Combos
  import opened DefaultFsDeps
  import opened Slices
  import opened Compiler
  import opened CompilerProof
  import opened Flat

  /** One of the omitted operations was flushed by a sync before the limit. */
  ghost predicate SomeFlushed(ops: seq<DiskOp>, omitted: set<nat>, limit: nat)
    requires limit <= |ops|
  {
    exists o: nat, s: nat :: o in omitted && o < s < limit && FsFlushes(ops[s], ops[o])
  }

  /** Every prefix is legal. */
  lemma PrefixIsLegal(ops: seq<DiskOp>, limit: nat)
    requires limit <= |ops|
    ensures ValidCombo(FsDepList(ops), UpTo(limit))
  {}

  /** Leaving out operations that are no barriers is legal until the first sync that flushed one of them. */
  lemma OmissionWindow(ops: seq<DiskOp>, omitted: set<nat>, limit: nat)
    requires limit <= |ops|
    requires forall o :: o in omitted && o < limit ==> !IsBarrier(ops[o])
    ensures ValidCombo(FsDepList(ops), UpTo(limit) - omitted) <==> !SomeFlushed(ops, omitted, limit)
  {
    var deps, combo := FsDepList(ops), UpTo(limit) - omitted;
    if SomeFlushed(ops, omitted, limit) {
      var o: nat, s: nat :| o in omitted && o < s < limit && FsFlushes(ops[s], ops[o]);
      assert FsDepends(ops, s, o);
      assert o in deps[s];
      assert s in combo;
    } else {
      forall k, d | k in combo && d in deps[k] ensures d in combo {
        assert FsDepends(ops, k, d);
      }
    }
  }

  /** Leaving out a sync or stdout makes everything later illegal. */
  lemma OmittedBarrierIsFinal(ops: seq<DiskOp>, omitted: set<nat>, limit: nat, b: nat, k: nat)
    requires b < k < limit <= |ops| && b in omitted && k !in omitted && IsBarrier(ops[b])
    ensures !ValidCombo(FsDepList(ops), UpTo(limit) - omitted)
  {
    assert FsDepends(ops, k, b);
    assert b in FsDepList(ops)[k];
    assert k in UpTo(limit) - omitted;
  }

  /** The default file system's lists grow, so the largest operation of a combination decides
      alone, and the number of crash states has a closed form. */
  lemma CrashStateCount(ops: seq<DiskOp>)
    ensures CountAll(FsDepList(ops)) == PowerSum(FsDepList(ops), |ops|) == |BruteForce(FsDepList(ops))|
    ensures forall combo: set<nat>, top: nat :: top in combo && top < |ops| && combo <= UpTo(top + 1) ==>
      (ValidCombo(FsDepList(ops), combo) <==> FsDeps(ops, top) <= combo)
  {
    var deps := FsDepList(ops);
    FsDepsClosed(ops);
    CountAllIsPowerSum(deps);
    CountAllIsBruteForce(deps);
    forall combo: set<nat>, top: nat | top in combo && top < |ops| && combo <= UpTo(top + 1)
      ensures ValidCombo(deps, combo) <==> FsDeps(ops, top) <= combo
    {
      LargestDecides(deps, combo, top);
    }
  }

  // ----- states of the replayer -----

  type Flags = seq<seq<bool>>

  ghost function OmittedIds(omitted: Flags): set<nat> {
    set k: nat | k < |Flatten(omitted)| && Flatten(omitted)[k]
  }

  /** One flag stands for one disk operation, under its running index. */
  lemma FlagChanged(omitted: Flags, i: nat, j: nat, flag: bool)
    requires i < |omitted| && j < |omitted[i]|
    ensures OmittedIds(omitted[i := omitted[i][j := flag]]) ==
      if flag then OmittedIds(omitted) + {Before(omitted, i) + j} else OmittedIds(omitted) - {Before(omitted, i) + j}
  {
    hide Flatten, Before;
    FlattenUpdate(omitted, i, j, flag);
  }

  lemma OmittedAt(omitted: Flags, i: nat, j: nat, single: nat)
    requires Numbers(omitted, i, j, single)
    ensures single in OmittedIds(omitted) <==> omitted[i][j]
  {
    FlattenAt(omitted, i, j);
  }

  predicate IsSyncOp(m: MicroOp) { m.SyncFile? || m.SyncRange? || m.SyncEverything? }

  /** The disk operations of the micro operations in some split mode. */
  ghost predicate Compiled(ms: seq<MicroOp>, mode: Splitting, dops: seq<seq<DiskOp>>) {
    && Usable(mode) && |dops| == |ms|
    && forall i :: 0 <= i < |ms| ==> dops[i] == DiskOps(mode, ms[i])
  }

  /** A state ends after disk operation d of micro operation e. */
  predicate IsEnd(dops: seq<seq<DiskOp>>, e: int, d: int) {
    0 <= e < |dops| && -1 <= d < |dops[e]|
  }

  /** Disk operation b of micro operation a lies before the end. */
  predicate InState(dops: seq<seq<DiskOp>>, e: nat, d: int, a: nat, b: nat)
    requires IsEnd(dops, e, d)
  {
    a <= e && b < |dops[a]| && (a == e ==> b <= d)
  }

  function Limit(dops: seq<seq<DiskOp>>, e: nat, d: int): nat
    requires IsEnd(dops, e, d)
  {
    Before(dops, e) + d + 1
  }

  /** What is_legal decides: partial sync() calls never count, and the included disk
      operations have to be a valid combination. */
  ghost predicate LegalState(ms: seq<MicroOp>, dops: seq<seq<DiskOp>>, omitted: Flags, deps: DepList, e: int, d: int)
    requires |ms| == |dops| && SameShape(dops, omitted) && IsEnd(dops, e, d)
  {
    && !(ms[e].SyncEverything? && d < |dops[e]| - 1)
    && (forall i: nat, j: nat :: InState(dops, e, d, i, j) && ms[i].SyncEverything? ==> !omitted[i][j])
    && ValidCombo(deps, UpTo(Limit(dops, e, d)) - OmittedIds(omitted))
  }

  // ----- disk operations by kind of micro operation -----

  lemma {:induction false} JobHasNoBarrier(inode: int, job: Job, slices: seq<Slice>)
    ensures forall i :: 0 <= i < |JobOps(inode, job, slices)| ==> !IsBarrier(JobOps(inode, job, slices)[i])
  {
    JobOpsAreFileOps(inode, job, slices);
  }

  lemma TruncHasNoBarrier(mode: Splitting, inode: int, a: nat, b: nat)
    requires Usable(mode)
    ensures forall i :: 0 <= i < |TruncSpec(mode, inode, a, b)| ==> !IsBarrier(TruncSpec(mode, inode, a, b)[i])
  {
    if a <= b {
      JobOpsAreFileOps(inode, Grow, SlicesOf(mode, a, b - a));
    } else {
      ShrinkOpsAreFileOps(inode, SlicesOf(mode, b, a - b));
    }
  }

  /** Only sync and print operations compile to barriers, and they compile to nothing else. */
  lemma BarriersOf(mode: Splitting, m: MicroOp, i: nat)
    requires Usable(mode) && i < |DiskOps(mode, m)|
    ensures DiskOps(mode, m)[i].Sync? <==> IsSyncOp(m)
    ensures DiskOps(mode, m)[i].Stdout? <==> m.Print?
  {
    hide SlicesOf, JobOps;
    match m {
      case Unlink(_, _, inode, size, _) =>
        TruncHasNoBarrier(mode, inode, size, 0);
      case Rename(_, _, _, _, _, destInode, destSize, _) =>
        TruncHasNoBarrier(mode, destInode, destSize, 0);
      case Trunc(inode, initialSize, finalSize) =>
        TruncHasNoBarrier(mode, inode, initialSize, finalSize);
      case Append(inode, offset, count, file, at) =>
        JobHasNoBarrier(inode, AppendFrom(offset, file, at), SlicesOf(mode, offset, count));
      case Overwrite(inode, offset, count, file, at) =>
        JobHasNoBarrier(inode, OverwriteFrom(offset, file, at), SlicesOf(mode, offset, count));
      case _ =>
    }
  }

  lemma FlatOp(ms: seq<MicroOp>, mode: Splitting, dops: seq<seq<DiskOp>>, i: nat, j: nat, single: nat)
    requires Compiled(ms, mode, dops) && Numbers(dops, i, j, single)
    ensures single < |Flatten(dops)| && Flatten(dops)[single] == dops[i][j]
    ensures dops[i][j].Sync? <==> IsSyncOp(ms[i])
    ensures dops[i][j].Stdout? <==> ms[i].Print?
  {
    FlattenAt(dops, i, j);
    BarriersOf(mode, ms[i], j);
  }

  lemma LimitInRange(dops: seq<seq<DiskOp>>, e: nat, d: int)
    requires IsEnd(dops, e, d)
    ensures Limit(dops, e, d) <= |Flatten(dops)|
  {
    FlattenLength(dops);
    if e + 1 < |dops| {
      BeforeGrows(dops, e, |dops|);
    }
  }

  /** A later disk operation, up to disk operation d of micro operation e, is a sync that
      flushes an omitted disk operation of micro operation i. */
  ghost predicate FlushedLater(dops: seq<seq<DiskOp>>, omitted: Flags, i: nat, e: nat, d: int)
    requires SameShape(dops, omitted) && i < |dops| && IsEnd(dops, e, d)
  {
    exists a: nat, b: nat, c: nat ::
      InState(dops, e, d, a, b) && i < a && c < |dops[i]| && omitted[i][c] && FsFlushes(dops[a][b], dops[i][c])
  }

  /** Only disk operations of micro operation i are left out. */
  ghost predicate OnlyOmits(omitted: Flags, i: nat) {
    forall a, b :: 0 <= a < |omitted| && a != i && 0 <= b < |omitted[a]| ==> !omitted[a][b]
  }

  lemma FlushedFlat(ms: seq<MicroOp>, mode: Splitting, dops: seq<seq<DiskOp>>, omitted: Flags, i: nat, e: nat, d: int)
    requires Compiled(ms, mode, dops) && SameShape(dops, omitted) && OnlyOmits(omitted, i)
    requires i < |ms| && IsEnd(dops, e, d) && !IsSyncOp(ms[i]) && Limit(dops, e, d) <= |Flatten(dops)|
    requires SomeFlushed(Flatten(dops), OmittedIds(omitted), Limit(dops, e, d))
    ensures FlushedLater(dops, omitted, i, e, d)
  {
    hide DiskOps, Before;
    var ops, ids, limit := Flatten(dops), OmittedIds(omitted), Limit(dops, e, d);
    var o: nat, s: nat :| o in ids && o < s < limit && FsFlushes(ops[s], ops[o]);
    FlattenLength(omitted);
    var i', c := PairExists(omitted, o, |omitted|);
    OmittedAt(omitted, i', c, o);
    BeforeSameShape(dops, omitted, i');
    FlatOp(ms, mode, dops, i', c, o);
    var a, b := EndedPair(dops, e, d, s);
    FlatOp(ms, mode, dops, a, b, s);
    if a < i {
      BeforeGrows(dops, a, i);
    }
  }

  lemma FlushedPair(ms: seq<MicroOp>, mode: Splitting, dops: seq<seq<DiskOp>>, omitted: Flags, i: nat, e: nat, d: int)
    requires Compiled(ms, mode, dops) && SameShape(dops, omitted)
    requires i < |ms| && IsEnd(dops, e, d) && Limit(dops, e, d) <= |Flatten(dops)|
    requires FlushedLater(dops, omitted, i, e, d)
    ensures SomeFlushed(Flatten(dops), OmittedIds(omitted), Limit(dops, e, d))
  {
    hide DiskOps, Before;
    var a: nat, b: nat, c: nat :|
      InState(dops, e, d, a, b) && i < a && c < |dops[i]| && omitted[i][c] && FsFlushes(dops[a][b], dops[i][c]);
    var o, s := Before(dops, i) + c, Before(dops, a) + b;
    BeforeSameShape(dops, omitted, i);
    OmittedAt(omitted, i, c, o);
    FlatOp(ms, mode, dops, i, c, o);
    FlatOp(ms, mode, dops, a, b, s);
    BeforeGrows(dops, i, a);
    if a < e {
      BeforeGrows(dops, a, e);
    }
  }

  lemma EndedPair(dops: seq<seq<DiskOp>>, e: nat, d: int, s: nat) returns (a: nat, b: nat)
    requires IsEnd(dops, e, d) && s < Limit(dops, e, d)
    ensures InState(dops, e, d, a, b) && Numbers(dops, a, b, s)
  {
    a, b := PairExists(dops, s, e + 1);
  }

  /** With any disk operations of one micro operation omitted that is neither sync nor print:
      legal as long as no later sync inside the state flushes one of them. */
  lemma OmissionIsLegal(ms: seq<MicroOp>, mode: Splitting, dops: seq<seq<DiskOp>>, omitted: Flags, i: nat, e: nat,
      d: int)
    requires Compiled(ms, mode, dops) && SameShape(dops, omitted) && OnlyOmits(omitted, i)
    requires i < |ms| && IsEnd(dops, e, d) && !IsSyncOp(ms[i]) && (ms[i].Print? ==> true !in omitted[i])
    requires ms[e].SyncEverything? ==> d == |dops[e]| - 1
    ensures LegalState(ms, dops, omitted, FsDepList(Flatten(dops)), e, d) <==> !FlushedLater(dops, omitted, i, e, d)
  {
    var ops, ids, limit := Flatten(dops), OmittedIds(omitted), Limit(dops, e, d);
    LimitInRange(dops, e, d);
    if SomeFlushed(ops, ids, limit) {
      FlushedFlat(ms, mode, dops, omitted, i, e, d);
    }
    if FlushedLater(dops, omitted, i, e, d) {
      FlushedPair(ms, mode, dops, omitted, i, e, d);
    }
    forall o | o in ids && o < limit ensures !IsBarrier(ops[o]) {
      FlattenLength(omitted);
      var i', c := PairExists(omitted, o, |omitted|);
      OmittedAt(omitted, i', c, o);
      BeforeSameShape(dops, omitted, i');
      FlatOp(ms, mode, dops, i', c, o);
    }
    OmissionWindow(ops, ids, limit);
  }

  /** A sync micro operation that is left out makes every later state with a disk operation illegal. */
  lemma OmittedSyncIsIllegal(ms: seq<MicroOp>, mode: Splitting, dops: seq<seq<DiskOp>>, omitted: Flags, i: nat,
      e: nat, d: int)
    requires Compiled(ms, mode, dops) && SameShape(dops, omitted) && OnlyOmits(omitted, i)
    requires i < e && IsEnd(dops, e, d) && d >= 0 && IsSyncOp(ms[i]) && true in omitted[i]
    ensures !LegalState(ms, dops, omitted, FsDepList(Flatten(dops)), e, d)
  {
    var c :| 0 <= c < |omitted[i]| && omitted[i][c];
    var o, k := Before(dops, i) + c, Before(dops, e) + d;
    BeforeSameShape(dops, omitted, i);
    BeforeSameShape(dops, omitted, e);
    OmittedAt(omitted, i, c, o);
    OmittedAt(omitted, e, d, k);
    FlatOp(ms, mode, dops, i, c, o);
    BeforeGrows(dops, i, e);
    LimitInRange(dops, e, d);
    OmittedBarrierIsFinal(Flatten(dops), OmittedIds(omitted), Limit(dops, e, d), o, k);
  }
}
