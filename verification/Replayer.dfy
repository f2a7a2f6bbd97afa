/** Replayer: compiling the trace for a file system, choosing what to leave out, asking
    whether the chosen state is legal, and building it. */
module Replayer {
  import opened Ops
  import opened Deps
  import opened Closure
  import opened TestSuite
  import opened DefaultFsDeps
  import opened Slices
  import opened Compiler
  import opened CompilerProof
  import opened Replay
  import opened Flat
  import opened Legality

  /** The dependency tuples in the order set_fs produces them. */
  method PairsOf(ops: seq<DiskOp>, hidden: DepList) returns (pairs: seq<Pair>)
    requires |hidden| == |ops|
    requires forall i, j: nat :: 0 <= i < |ops| ==> (j in hidden[i] <==> IsHidden(ops, i, j))
    ensures ArePairsOf(ops, pairs)
  {
    pairs := [];
    for i := 0 to |ops|
      invariant forall a: nat, b: nat {:trigger (a, b) in pairs} :: (a, b) in pairs <==> a < i && IsHidden(ops, a, b)
    {
      ghost var before := pairs;
      for j := 0 to i
        invariant forall a: nat, b: nat {:trigger (a, b) in pairs} ::
          (a, b) in pairs <==> (a < i && IsHidden(ops, a, b)) || (a == i && b < j && IsHidden(ops, a, b))
      {
        if j in hidden[i] {
          assert IsHidden(ops, i, j);
          pairs := pairs + [(i, j)];
        }
      }
    }
  }

  /** Stdout operations become writes to inode -1 for the suite. */
  method Disguise(ops: seq<DiskOp>) returns (view: seq<DiskOp>)
    ensures view == AsSuiteOps(ops)
  {
    view := [];
    for i := 0 to |ops|
      invariant |view| == i && forall k :: 0 <= k < i ==> view[k] == AsSuiteOp(ops[k])
    {
      if ops[i].Stdout? {
        view := view + [Write(-1, 0, 1, Zeros)];
      } else {
        view := view + [ops[i]];
      }
    }
  }

  function NoneOmitted(n: nat): (r: seq<bool>)
    ensures |r| == n && true !in r
  {
    if n == 0 then [] else NoneOmitted(n - 1) + [false]
  }

  function AllOmitted(n: nat): (r: seq<bool>)
    ensures |r| == n && false !in r
  {
    if n == 0 then [] else AllOmitted(n - 1) + [true]
  }

  /** The compiling half of set_fs. */
  method CompileTrace(ms: seq<MicroOp>, mode: Splitting)
      returns (dops: seq<seq<DiskOp>>, flags: Flags, all: seq<DiskOp>)
    requires Usable(mode) && forall i :: 0 <= i < |ms| && ms[i].Overwrite? ==> ms[i].count > 0
    ensures Compiled(ms, mode, dops) && SameShape(dops, flags)
    ensures all == CompileAll(mode, ms) == Flatten(dops)
    ensures forall i :: 0 <= i < |flags| ==> true !in flags[i]
  {
    hide DiskOps;
    dops, flags, all := [], [], [];
    for i := 0 to |ms|
      invariant all == CompileAll(mode, ms[..i]) == Flatten(dops)
      invariant |dops| == i && SameShape(dops, flags)
      invariant forall k :: 0 <= k < i ==> dops[k] == DiskOps(mode, ms[k]) && true !in flags[k]
    {
      var ops := GetDiskOps(mode, ms[i]);
      assert ms[..i + 1][..i] == ms[..i];
      assert (dops + [ops])[..i] == dops;
      dops, flags, all := dops + [ops], flags + [NoneOmitted(|ops|)], all + ops;
    }
    assert ms[..|ms|] == ms;
  }

  /** The inner loop of is_legal over one micro operation. */
  method CollectIncluded(isSync: bool, flags: seq<bool>, till: nat, start: nat) returns (ok: bool, ids: seq<nat>)
    requires till <= |flags|
    ensures ok <==> !(isSync && true in flags[..till])
    ensures ok ==> forall k: nat :: k in ids <==> start <= k < start + till && !flags[k - start]
  {
    ids := [];
    var index := start;
    for j := 0 to till
      invariant index == start + j
      invariant !(isSync && true in flags[..j])
      invariant forall k: nat :: k in ids <==> start <= k < index && !flags[k - start]
    {
      assert flags[..j + 1] == flags[..j] + [flags[j]];
      if !flags[j] {
        ids := ids + [index];
      } else if isSync {
        assert flags[..till][j];
        return false, ids;
      }
      index := index + 1;
    }
    return true, ids;
  }

  lemma OmittedRow(dops: seq<seq<DiskOp>>, omitted: Flags, i: nat, k: nat)
    requires SameShape(dops, omitted) && i < |dops| && Before(dops, i) <= k < Before(dops, i) + |dops[i]|
    ensures k in OmittedIds(omitted) <==> omitted[i][k - Before(dops, i)]
  {
    BeforeSameShape(dops, omitted, i);
    OmittedAt(omitted, i, k - Before(dops, i), k);
  }

  /** The running indices of all included disk operations up to the end. */
  method IncludedOps(ms: seq<MicroOp>, dops: seq<seq<DiskOp>>, omitted: Flags, e: nat, d: int)
    returns (ok: bool, included: seq<nat>)
    requires |ms| == |dops| && SameShape(dops, omitted) && IsEnd(dops, e, d)
    ensures ok <==> forall i: nat, j: nat :: InState(dops, e, d, i, j) && ms[i].SyncEverything? ==> !omitted[i][j]
    ensures ok ==> forall k: nat :: k in included <==> k < Limit(dops, e, d) && k !in OmittedIds(omitted)
  {
    hide OmittedIds;
    var index := 0;
    included := [];
    for i := 0 to e + 1
      invariant index == if i == e + 1 then Limit(dops, e, d) else Before(dops, i)
      invariant forall k: nat :: k in included <==> k < index && k !in OmittedIds(omitted)
      invariant forall a: nat, b: nat :: InState(dops, e, d, a, b) && a < i && ms[a].SyncEverything? ==> !omitted[a][b]
    {
      var till := if i == e then d + 1 else |dops[i]|;
      var fine, ids := CollectIncluded(ms[i].SyncEverything?, omitted[i], till, index);
      if !fine {
        var j :| 0 <= j < till && omitted[i][..till][j];
        assert InState(dops, e, d, i, j);
        return false, included;
      }
      forall k: nat | index <= k < index + till ensures k in OmittedIds(omitted) <==> omitted[i][k - index] {
        OmittedRow(dops, omitted, i, k);
      }
      assert forall b :: 0 <= b < till ==> omitted[i][..till][b] == omitted[i][b];
      included := included + ids;
      index := index + till;
    }
    ok := true;
  }

  /** The first n operations without the omitted ones. */
  function Selected(ops: seq<DiskOp>, flags: seq<bool>, n: nat): seq<DiskOp>
    requires n <= |ops| == |flags|
  {
    if n == 0 then [] else Selected(ops, flags, n - 1) + if flags[n - 1] then [] else [ops[n - 1]]
  }

  lemma {:induction false} SelectedAll(ops: seq<DiskOp>, flags: seq<bool>, n: nat)
    requires n <= |ops| == |flags| && true !in flags
    ensures Selected(ops, flags, n) == ops[..n]
  {
    if n == 0 {
    } else {
      SelectedAll(ops, flags, n - 1);
      assert flags[n - 1] in flags;
    }
  }

  lemma SameLength(dops: seq<seq<DiskOp>>, omitted: Flags)
    requires SameShape(dops, omitted)
    ensures |Flatten(dops)| == |Flatten(omitted)|
  {
    FlattenLength(dops);
    FlattenLength(omitted);
    BeforeSameShape(dops, omitted, |dops|);
  }

  lemma SelectedStep(dops: seq<seq<DiskOp>>, omitted: Flags, i: nat, j: nat)
    requires SameShape(dops, omitted) && i < |dops| && j < |dops[i]|
    ensures var k := Before(dops, i) + j;
            && k < |Flatten(dops)| == |Flatten(omitted)|
            && Selected(Flatten(dops), Flatten(omitted), k + 1) ==
               Selected(Flatten(dops), Flatten(omitted), k) + if omitted[i][j] then [] else [dops[i][j]]
  {
    hide Flatten, Before;
    SameLength(dops, omitted);
    BeforeSameShape(dops, omitted, i);
    FlattenAt(dops, i, j);
    FlattenAt(omitted, i, j);
  }

  /** Row by row: what is selected up to inside row i. */
  lemma {:induction false} SelectedRow(dops: seq<seq<DiskOp>>, omitted: Flags, i: nat, k: nat)
    requires SameShape(dops, omitted) && i < |dops| && k <= |dops[i]|
    ensures |Flatten(dops)| == |Flatten(omitted)| && Before(dops, i) + k <= |Flatten(dops)|
    ensures Selected(Flatten(dops), Flatten(omitted), Before(dops, i) + k) ==
      Selected(Flatten(dops), Flatten(omitted), Before(dops, i)) + Selected(dops[i], omitted[i], k)
  {
    SameLength(dops, omitted);
    BeforeInRange(dops, i);
    if k == 0 {
    } else {
      hide Flatten, Before;
      SelectedRow(dops, omitted, i, k - 1);
      SelectedStep(dops, omitted, i, k - 1);
      var before := Selected(Flatten(dops), Flatten(omitted), Before(dops, i));
      var more := if omitted[i][k - 1] then [] else [dops[i][k - 1]];
      assert (before + Selected(dops[i], omitted[i], k - 1)) + more
        == before + (Selected(dops[i], omitted[i], k - 1) + more);
    }
  }

  lemma BeforeInRange(dops: seq<seq<DiskOp>>, i: nat)
    requires i < |dops|
    ensures Before(dops, i) + |dops[i]| <= |Flatten(dops)|
  {
    FlattenLength(dops);
    BeforeGrows(dops, i, |dops|);
  }

  lemma {:induction false} SelectedNothing(ops: seq<DiskOp>, flags: seq<bool>, n: nat)
    requires n <= |ops| == |flags| && false !in flags
    ensures Selected(ops, flags, n) == []
  {
    if n == 0 {
    } else {
      SelectedNothing(ops, flags, n - 1);
      assert flags[n - 1] in flags;
    }
  }

  /** With one flag set, one operation is missing. */
  lemma {:induction false} SelectedButOne(ops: seq<DiskOp>, flags: seq<bool>, k: nat, n: nat)
    requires k < n <= |ops| == |flags| && forall i :: 0 <= i < |flags| ==> (flags[i] <==> i == k)
    ensures Selected(ops, flags, n) == ops[..k] + ops[k + 1..n]
  {
    if n == k + 1 {
      SelectedBefore(ops, flags, k, k);
    } else {
      SelectedButOne(ops, flags, k, n - 1);
      assert ops[k + 1..n] == ops[k + 1..n - 1] + [ops[n - 1]];
    }
  }

  lemma {:induction false} SelectedBefore(ops: seq<DiskOp>, flags: seq<bool>, k: nat, n: nat)
    requires n <= k < |ops| == |flags| && forall i :: 0 <= i < |flags| ==> (flags[i] <==> i == k)
    ensures Selected(ops, flags, n) == ops[..n]
  {
    if n == 0 {
    } else {
      SelectedBefore(ops, flags, k, n - 1);
    }
  }

  method BuildDir(dops: seq<seq<DiskOp>>, omitted: Flags, e: nat, d: int, initial: Tree) returns (tree: Option<Tree>)
    requires SameShape(dops, omitted) && IsEnd(dops, e, d)
    ensures Limit(dops, e, d) <= |Flatten(dops)| == |Flatten(omitted)|
    ensures var n := Limit(dops, e, d);
            tree == if n == 0 then None else Some(ReplayAll(initial, Selected(Flatten(dops), Flatten(omitted), n)))
  {
    hide ReplayAll, Selected, Flatten;
    SameLength(dops, omitted);
    LimitInRange(dops, e, d);
    ghost var index := 0;
    var toReplay: seq<DiskOp> := [];
    assert toReplay
      == Selected(Flatten(dops), Flatten(omitted), 0) by { SelectedNone(Flatten(dops), Flatten(omitted)); }
    tree := None;
    for i := 0 to e + 1
      invariant index == if i == e + 1 then Limit(dops, e, d) else Before(dops, i)
      invariant index <= |Flatten(dops)| && toReplay == Selected(Flatten(dops), Flatten(omitted), index)
      invariant tree == if index == 0 then None else Some(ReplayAll(initial, toReplay))
    {
      var till := if i == e then d + 1 else |dops[i]|;
      for j := 0 to till
        invariant index == Before(dops, i) + j
        invariant index <= |Flatten(dops)| && toReplay == Selected(Flatten(dops), Flatten(omitted), index)
        invariant tree == if index == 0 then None else Some(ReplayAll(initial, toReplay))
      {
        SelectedStep(dops, omitted, i, j);
        if !omitted[i][j] {
          toReplay := toReplay + [dops[i][j]];
        }
        index := index + 1;
        var t, _ := ReplayRows(initial, toReplay);
        tree := Some(t);
      }
    }
  }

  lemma SelectedNone(ops: seq<DiskOp>, flags: seq<bool>)
    requires |ops| == |flags|
    ensures Selected(ops, flags, 0) == []
  {}

  class Replayer {
    var microOps: seq<MicroOp>
    var diskOps: seq<seq<DiskOp>>
    var omitted: Flags
    var microEnd: int
    var diskEnd: int
    var suite: Suite
    ghost var mode: Splitting

    /** A file system has been set: compiled operations, one flag each, and the closed-form dependencies. */
    ghost predicate Ready()
      reads this, suite
    {
      && Compiled(microOps, mode, diskOps) && SameShape(diskOps, omitted)
      && suite.Valid() && suite.deps == FsDepList(Flatten(diskOps))
    }

    /** What the two assertions of the compiler and of get_deps need from the trace. */
    static ghost predicate Acceptable(ms: seq<MicroOp>, mode: Splitting) {
      && Usable(mode)
      && (forall i :: 0 <= i < |ms| && ms[i].Overwrite? ==> ms[i].count > 0)
      && RealInodes(CompileAll(mode, ms)) && ScanAssertionsHold(CompileAll(mode, ms))
    }

    constructor (ms: seq<MicroOp>)
      ensures microOps == ms && microEnd == |ms| - 1 && diskEnd == 0 && fresh(suite)
    {
      microOps, diskOps, omitted, microEnd, diskEnd := ms, [], [], |ms| - 1, 0;
      suite := new Suite([]);
      mode := Count(1);
    }

    method SetFs(splitting: Splitting)
      requires Acceptable(microOps, splitting)
      modifies this
      ensures Ready() && mode == splitting && microOps == old(microOps) && fresh(suite)
      ensures suite.deps == FsDepList(CompileAll(splitting, microOps))
      ensures forall i :: 0 <= i < |omitted| ==> true !in omitted[i]
      ensures microEnd == old(microEnd)
      ensures 0 <= microEnd < |microOps| ==> diskEnd == |diskOps[microEnd]| - 1
    {
      hide CompileAll, AsSuiteOps, WithPairs;
      mode := splitting;
      var all;
      diskOps, omitted, all := CompileTrace(microOps, splitting);
      if 0 <= microEnd < |microOps| {
        diskEnd := |diskOps[microEnd]| - 1;
      }
      var view := Disguise(all);
      suite := new Suite(view);
      var hidden := GetDeps(all);
      var pairs := PairsOf(all, hidden);
      HiddenIsSandwiched(all, pairs);
      SetFsClosedForm(all, pairs);
      suite.AddDepsToOps(pairs);
    }

    method DopsEndAt(i: int, j: int)
      modifies this`microEnd, this`diskEnd
      ensures microEnd == i && diskEnd == j
    {
      microEnd, diskEnd := i, j;
    }

    /** Stdout operations cannot be left out. */
    method DopsOmit(i: nat, j: nat)
      requires |diskOps| == |microOps| && SameShape(diskOps, omitted) && i < |diskOps| && j < |diskOps[i]|
      modifies this`omitted
      ensures omitted == if microOps[i].Print? then old(omitted) else old(omitted)[i := old(omitted)[i][j := true]]
      ensures OmittedIds(omitted) == old(OmittedIds(omitted)) + if microOps[i].Print? then {}
        else {Before(diskOps, i) + j}
    {
      FlagChanged(omitted, i, j, true);
      BeforeSameShape(diskOps, omitted, i);
      if !microOps[i].Print? {
        omitted := omitted[i := omitted[i][j := true]];
      }
    }

    method DopsInclude(i: nat, j: nat)
      requires SameShape(diskOps, omitted) && i < |diskOps| && j < |diskOps[i]|
      modifies this`omitted
      ensures omitted == old(omitted)[i := old(omitted)[i][j := false]]
      ensures OmittedIds(omitted) == old(OmittedIds(omitted)) - {Before(diskOps, i) + j}
    {
      FlagChanged(omitted, i, j, false);
      BeforeSameShape(diskOps, omitted, i);
      omitted := omitted[i := omitted[i][j := false]];
    }

    /** is_legal: a partial sync() is never legal; otherwise the suite decides. */
    method IsLegal() returns (legal: bool)
      requires Ready() && IsEnd(diskOps, microEnd, diskEnd)
      ensures legal <==> LegalState(microOps, diskOps, omitted, suite.deps, microEnd, diskEnd)
    {
      if microOps[microEnd].SyncEverything? && diskEnd < |diskOps[microEnd]| - 1 {
        return false;
      }
      var ok, included := IncludedOps(microOps, diskOps, omitted, microEnd, diskEnd);
      if !ok {
        return false;
      }
      LimitInRange(diskOps, microEnd, diskEnd);
      assert forall k :: 0 <= k < |included| ==> included[k] in included;
      assert Ids(included) == UpTo(Limit(diskOps, microEnd, diskEnd)) - OmittedIds(omitted);
      legal := suite.TestComboValidity(included);
    }

    /** construct_crashed_dir replays after every single disk operation; the last replay stays.
        Without any disk operation there is no directory at all. */
    method ConstructCrashedDir(initial: Tree) returns (tree: Option<Tree>)
      requires |diskOps| == |microOps| && SameShape(diskOps, omitted) && IsEnd(diskOps, microEnd, diskEnd)
      ensures Limit(diskOps, microEnd, diskEnd) <= |Flatten(diskOps)| == |Flatten(omitted)|
      ensures var n := Limit(diskOps, microEnd, diskEnd);
              tree == if n == 0 then None else Some(ReplayAll(initial, Selected(Flatten(diskOps), Flatten(omitted), n)))
    {
      tree := BuildDir(diskOps, omitted, microEnd, diskEnd, initial);
    }
  }
}
