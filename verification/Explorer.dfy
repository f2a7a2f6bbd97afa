/** The exploration loops of default_checks: which states the three phases build. */
module Explorer {
  import opened Ops
  import opened Deps
  import opened Slices
  import opened Compiler
  import opened CompilerProof
  import opened Replay
  import opened Flat
  import opened Legality
  import opened Replayer

  ghost predicate NothingOmitted(omitted: Flags) {
    forall i :: 0 <= i < |omitted| ==> true !in omitted[i]
  }

  // ----- across system calls -----

  lemma {:induction false} FlattenFalse(omitted: Flags)
    requires NothingOmitted(omitted)
    ensures true !in Flatten(omitted)
    decreases |omitted|
  {
    if |omitted| == 0 {
    } else {
      FlattenFalse(omitted[..|omitted| - 1]);
    }
  }

  lemma {:induction false} FlattenIsCompileAll(ms: seq<MicroOp>, mode: Splitting, dops: seq<seq<DiskOp>>, n: nat)
    requires Compiled(ms, mode, dops) && n <= |ms|
    ensures Flatten(dops[..n]) == CompileAll(mode, ms[..n])
  {
    hide DiskOps;
    if n == 0 {
    } else {
      FlattenIsCompileAll(ms, mode, dops, n - 1);
      assert dops[..n][..n - 1] == dops[..n - 1] && ms[..n][..n - 1] == ms[..n - 1];
    }
  }

  /** With nothing left out, every state that ends with a whole micro operation is legal, and is
      what the micro operations up to there do through their recorded sizes. */
  lemma PrefixState(ms: seq<MicroOp>, mode: Splitting, dops: seq<seq<DiskOp>>, omitted: Flags, initial: Tree, i: nat)
    requires Compiled(ms, mode, dops) && SameShape(dops, omitted) && NothingOmitted(omitted)
    requires i < |ms|
    ensures LegalState(ms, dops, omitted, FsDepList(Flatten(dops)), i, |dops[i]| - 1)
    ensures var n := Limit(dops, i, |dops[i]| - 1);
            && n <= |Flatten(dops)| == |Flatten(omitted)|
            && ReplayAll(initial, Selected(Flatten(dops), Flatten(omitted), n)) == RunRecordedAll(initial, ms[..i + 1])
  {
    hide DiskOps, ReplayAll, RunRecordedAll, CompileAll, Flatten, Selected, FsDepList;
    var n := Limit(dops, i, |dops[i]| - 1);
    LimitInRange(dops, i, |dops[i]| - 1);
    SameLength(dops, omitted);
    FlattenFalse(omitted);
    assert OmittedIds(omitted) == {};
    assert UpTo(n) - {} == UpTo(n);
    PrefixIsLegal(Flatten(dops), n);
    SelectedAll(Flatten(dops), Flatten(omitted), n);
    FlattenPrefix(dops, i + 1);
    FlattenLength(dops[..i + 1]);
    BeforePrefix(dops, i + 1, i + 1);
    assert Flatten(dops)[..n] == Flatten(dops[..i + 1]);
    FlattenIsCompileAll(ms, mode, dops, i + 1);
    CompileAllMeaning(initial, mode, ms[..i + 1]);
  }

  /** The first phase: one state per micro operation, without asking whether it is legal. */
  method PrefixStates(r: Replayer, initial: Tree) returns (states: seq<Option<Tree>>)
    requires r.Ready() && NothingOmitted(r.omitted)
    modifies r
    ensures r.Ready() && r.microOps == old(r.microOps) && r.diskOps == old(r.diskOps) && r.omitted == old(r.omitted)
    ensures |states| == |r.microOps|
    ensures forall i :: 0 <= i < |states| ==>
      states[i] == if Before(r.diskOps, i + 1) == 0 then None else Some(RunRecordedAll(initial, r.microOps[..i + 1]))
    ensures forall i :: 0 <= i < |states| ==>
      LegalState(r.microOps, r.diskOps, r.omitted, r.suite.deps, i, |r.diskOps[i]| - 1)
  {
    hide DiskOps, ReplayAll, RunRecordedAll, LegalState, FsDepList, Flatten, Selected, NothingOmitted;
    states := [];
    for i := 0 to |r.microOps|
      invariant r.Ready() && r.microOps == old(r.microOps) && r.diskOps == old(r.diskOps)
      invariant r.omitted == old(r.omitted) && r.suite == old(r.suite)
      invariant |states| == i
      invariant forall k :: 0 <= k < i ==>
        states[k] == if Before(r.diskOps, k + 1) == 0 then None else Some(RunRecordedAll(initial, r.microOps[..k + 1]))
      invariant forall k :: 0 <= k < i ==>
        LegalState(r.microOps, r.diskOps, r.omitted, r.suite.deps, k, |r.diskOps[k]| - 1)
    {
      r.DopsEndAt(i, |r.diskOps[i]| - 1);
      var tree := r.ConstructCrashedDir(initial);
      PrefixState(r.microOps, r.mode, r.diskOps, r.omitted, initial, i);
      states := states + [tree];
    }
  }

  // ----- atomic patches -----

  predicate Fails(bad: seq<bool>, i: int) { 0 <= i < |bad| && bad[i] }

  /** Of a run of failing states, all but the last one are inside a patch; a single failing state is. */
  predicate InsidePatch(bad: seq<bool>, i: int) {
    Fails(bad, i) && (Fails(bad, i + 1) || !Fails(bad, i - 1))
  }

  /** A patch starts with a maximal run of failing states and ends with the state after it, if there is one. */
  predicate IsPatch(bad: seq<bool>, start: nat, end: nat) {
    && Fails(bad, start) && !Fails(bad, start - 1) && start <= end < |bad|
    && (forall k :: start <= k < end ==> bad[k])
    && (bad[end] ==> end == |bad| - 1)
  }

  /** The evaluation of the first phase: exactly the maximal failing runs are reported. */
  method AtomicPatches(bad: seq<bool>) returns (middle: set<int>, patches: map<nat, nat>)
    ensures forall i :: i in middle <==> InsidePatch(bad, i)
    ensures forall a: nat :: a in patches <==> Fails(bad, a) && !Fails(bad, a - 1)
    ensures forall a :: a in patches ==> IsPatch(bad, a, patches[a])
  {
    middle, patches := {}, map[];
    var i := 0;
    while i < |bad|
      invariant 0 <= i <= |bad|
      invariant Fails(bad, i) ==> !Fails(bad, i - 1)
      invariant forall k :: k in middle <==> k < i && InsidePatch(bad, k)
      invariant forall a: nat :: a in patches <==> a < i && Fails(bad, a) && !Fails(bad, a - 1)
      invariant forall a :: a in patches ==> IsPatch(bad, a, patches[a])
    {
      if bad[i] {
        var start := i;
        middle := middle + {i};
        while i < |bad| - 1 && bad[i + 1]
          invariant start <= i < |bad| && forall k :: start <= k <= i ==> bad[k]
          invariant forall k :: k in middle <==>
            (k < start && InsidePatch(bad, k)) || start <= k < i || k == start
        {
          middle := middle + {i};
          i := i + 1;
        }
        var end := i + 1;
        if end >= |bad| {
          end := |bad| - 1;
        }
        patches := patches[start := end];
      }
      i := i + 1;
    }
  }

  // ----- ordering -----

  /** A later sync, up to and including micro operation j, flushes a disk operation of micro operation i. */
  ghost predicate FlushedUpTo(dops: seq<seq<DiskOp>>, i: nat, j: nat)
    requires i < |dops| && j < |dops|
  {
    exists a: nat, b: nat, c: nat ::
      i < a <= j && b < |dops[a]| && c < |dops[i]| && FsFlushes(dops[a][b], dops[i][c])
  }

  /** Micro operation i may still be missing when micro operation j is on disk. */
  ghost predicate CanReorder(ms: seq<MicroOp>, dops: seq<seq<DiskOp>>, i: nat, j: nat)
    requires |ms| == |dops| && i < |ms| && j < |ms|
  {
    ms[i].Print? || (!IsSyncOp(ms[i]) && !FlushedUpTo(dops, i, j))
  }

  /** Once reordering is impossible it stays impossible. */
  lemma ReorderWindow(ms: seq<MicroOp>, dops: seq<seq<DiskOp>>, i: nat, j: nat, j': nat)
    requires |ms| == |dops| && i < j <= j' < |ms| && CanReorder(ms, dops, i, j')
    ensures CanReorder(ms, dops, i, j)
  {}

  /** With micro operation i left out, is_legal at the end of j says whether i can be reordered after j. */
  lemma OrderingLegal(ms: seq<MicroOp>, mode: Splitting, dops: seq<seq<DiskOp>>, omitted: Flags, i: nat, j: nat)
    requires Compiled(ms, mode, dops) && SameShape(dops, omitted) && OnlyOmits(omitted, i)
    requires i < j < |ms| && |dops[i]| > 0 && |dops[j]| > 0
    requires if ms[i].Print? then true !in omitted[i] else false !in omitted[i]
    ensures LegalState(ms, dops, omitted, FsDepList(Flatten(dops)), j, |dops[j]| - 1) <==> CanReorder(ms, dops, i, j)
  {
    hide DiskOps, LegalState, FsDepList, Flatten;
    var d := |dops[j]| - 1;
    if IsSyncOp(ms[i]) {
      assert omitted[i][0] in omitted[i] && omitted[i][0];
      OmittedSyncIsIllegal(ms, mode, dops, omitted, i, j, d);
    } else {
      OmissionIsLegal(ms, mode, dops, omitted, i, j, d);
      assert FlushedLater(dops, omitted, i, j, d) <==> !ms[i].Print? && FlushedUpTo(dops, i, j) by {
        if FlushedLater(dops, omitted, i, j, d) {
          var a: nat, b: nat, c: nat :|
            InState(dops, j, d, a, b) && i < a && c < |dops[i]| && omitted[i][c] && FsFlushes(dops[a][b], dops[i][c]);
          assert omitted[i][c] in omitted[i];
        }
        if !ms[i].Print? && FlushedUpTo(dops, i, j) {
          var a: nat, b: nat, c: nat :| i < a <= j && b < |dops[a]| && c < |dops[i]|
            && FsFlushes(dops[a][b], dops[i][c]);
          assert omitted[i][c] in omitted[i];
          assert InState(dops, j, d, a, b);
        }
      }
    }
  }

  /** Skipped: empty micro operations and those around an atomic patch found in the first phase. */
  predicate Considered(dops: seq<seq<DiskOp>>, patch: set<int>, i: nat) {
    i < |dops| && |dops[i]| > 0 && i !in patch && i - 1 !in patch
  }

  method OmitAll(r: Replayer, i: nat)
    requires |r.diskOps| == |r.microOps| && SameShape(r.diskOps, r.omitted) && i < |r.diskOps|
    modifies r`omitted
    ensures r.omitted == if r.microOps[i].Print? then old(r.omitted)
      else old(r.omitted)[i := AllOmitted(|r.diskOps[i]|)]
  {
    for j := 0 to |r.diskOps[i]|
      invariant SameShape(r.diskOps, r.omitted)
      invariant forall a :: 0 <= a < |r.omitted| && a != i ==> r.omitted[a] == old(r.omitted)[a]
      invariant if r.microOps[i].Print? then r.omitted == old(r.omitted) else forall b :: 0 <= b < j ==> r.omitted[i][b]
    {
      r.DopsOmit(i, j);
    }
    if !r.microOps[i].Print? {
      var row := AllOmitted(|r.diskOps[i]|);
      forall b | 0 <= b < |row| ensures r.omitted[i][b] == row[b] {
        assert row[b] in row;
      }
      assert r.omitted[i] == row;
    }
  }

  method IncludeAll(r: Replayer, i: nat)
    requires SameShape(r.diskOps, r.omitted) && i < |r.diskOps|
    modifies r`omitted
    ensures r.omitted == old(r.omitted)[i := NoneOmitted(|r.diskOps[i]|)]
  {
    for j := 0 to |r.diskOps[i]|
      invariant SameShape(r.diskOps, r.omitted)
      invariant forall a :: 0 <= a < |r.omitted| && a != i ==> r.omitted[a] == old(r.omitted)[a]
      invariant forall b :: 0 <= b < j ==> !r.omitted[i][b]
    {
      r.DopsInclude(i, j);
    }
    var row := NoneOmitted(|r.diskOps[i]|);
    forall b | 0 <= b < |row| ensures r.omitted[i][b] == row[b] {
      assert row[b] in row;
    }
    assert r.omitted[i] == row;
  }

  /** The micro operations up to j without i; printing is never left out. */
  function Without(ms: seq<MicroOp>, i: nat, j: nat): seq<MicroOp>
    requires i < |ms| && j < |ms|
  {
    if ms[i].Print? || j <= i then ms[..j + 1] else ms[..i] + ms[i + 1..j + 1]
  }

  /** Of the first n micro operations those that were not left out. */
  function Kept(ms: seq<MicroOp>, omitted: Flags, n: nat): seq<MicroOp>
    requires n <= |ms| == |omitted|
  {
    if n == 0 then [] else Kept(ms, omitted, n - 1) + if true in omitted[n - 1] then [] else [ms[n - 1]]
  }

  /** Each of the first n micro operations is there as a whole or not at all. */
  ghost predicate AllOrNothing(omitted: Flags, n: nat)
    requires n <= |omitted|
  {
    forall k :: 0 <= k < n ==> true !in omitted[k] || false !in omitted[k]
  }

  /** One row, none or all of it left out. */
  lemma RowState(mode: Splitting, m: MicroOp, row: seq<DiskOp>, flags: seq<bool>, before: seq<MicroOp>)
    requires Usable(mode) && row == DiskOps(mode, m) && |flags| == |row| && (true !in flags || false !in flags)
    ensures CompileAll(mode, before) + Selected(row, flags, |row|) ==
      CompileAll(mode, before + if true in flags then [] else [m])
  {
    hide DiskOps;
    if true in flags {
      SelectedNothing(row, flags, |row|);
      assert before + [] == before;
    } else {
      SelectedAll(row, flags, |row|);
      assert row[..|row|] == row && (before + [m])[..|before|] == before;
    }
  }

  /** What is selected of the first n rows is the compiled program of what was kept. */
  lemma {:induction false} RowsState(ms: seq<MicroOp>, mode: Splitting, dops: seq<seq<DiskOp>>, omitted: Flags, n: nat)
    requires Compiled(ms, mode, dops) && SameShape(dops, omitted) && n <= |ms| && AllOrNothing(omitted, n)
    ensures |Flatten(dops)| == |Flatten(omitted)| && Before(dops, n) <= |Flatten(dops)|
    ensures Selected(Flatten(dops), Flatten(omitted), Before(dops, n)) == CompileAll(mode, Kept(ms, omitted, n))
  {
    hide DiskOps, Flatten, CompileAll, Selected;
    SameLength(dops, omitted);
    if n == 0 {
      SelectedNone(Flatten(dops), Flatten(omitted));
      EmptyProgram(mode);
    } else {
      RowsState(ms, mode, dops, omitted, n - 1);
      OneMoreKept(ms, mode, dops, omitted, n - 1);
    }
  }

  lemma EmptyProgram(mode: Splitting)
    requires Usable(mode)
    ensures CompileAll(mode, []) == []
  {}

  lemma OneMoreKept(ms: seq<MicroOp>, mode: Splitting, dops: seq<seq<DiskOp>>, omitted: Flags, k: nat)
    requires Compiled(ms, mode, dops) && SameShape(dops, omitted) && k < |ms| && AllOrNothing(omitted, k + 1)
    requires |Flatten(dops)| == |Flatten(omitted)| && Before(dops, k) <= |Flatten(dops)|
    requires Selected(Flatten(dops), Flatten(omitted), Before(dops, k)) == CompileAll(mode, Kept(ms, omitted, k))
    ensures Before(dops, k + 1) <= |Flatten(dops)|
    ensures Selected(Flatten(dops), Flatten(omitted), Before(dops, k + 1)) == CompileAll(mode, Kept(ms, omitted, k + 1))
  {
    hide DiskOps, Flatten, CompileAll, Selected;
    SelectedRow(dops, omitted, k, |dops[k]|);
    RowState(mode, ms[k], dops[k], omitted[k], Kept(ms, omitted, k));
  }

  lemma {:induction false} KeptAll(ms: seq<MicroOp>, omitted: Flags, n: nat)
    requires n <= |ms| == |omitted| && forall k :: 0 <= k < n ==> true !in omitted[k]
    ensures Kept(ms, omitted, n) == ms[..n]
  {
    if n == 0 {
    } else {
      KeptAll(ms, omitted, n - 1);
    }
  }

  /** Only micro operation i is left out. */
  lemma {:induction false} KeptButOne(ms: seq<MicroOp>, omitted: Flags, i: nat, n: nat)
    requires i < n <= |ms| == |omitted| && true in omitted[i]
    requires forall k :: 0 <= k < n && k != i ==> true !in omitted[k]
    ensures Kept(ms, omitted, n) == ms[..i] + ms[i + 1..n]
  {
    if n == i + 1 {
      KeptAll(ms, omitted, i);
      assert ms[i + 1..n] == [];
    } else {
      KeptButOne(ms, omitted, i, n - 1);
      assert ms[i + 1..n] == ms[i + 1..n - 1] + [ms[n - 1]];
    }
  }

  lemma OtherRows(omitted: Flags, i: nat)
    requires OnlyOmits(omitted, i)
    ensures forall k :: 0 <= k < |omitted| && k != i ==> true !in omitted[k]
  {
  }

  /** The state the second phase builds: the run of the trace that skips micro operation i. */
  lemma OrderingState(ms: seq<MicroOp>, mode: Splitting, dops: seq<seq<DiskOp>>, omitted: Flags, initial: Tree, i: nat,
      j: nat)
    requires Compiled(ms, mode, dops) && SameShape(dops, omitted) && OnlyOmits(omitted, i)
    requires i < j < |ms| && |dops[i]| > 0
    requires if ms[i].Print? then true !in omitted[i] else false !in omitted[i]
    ensures var n := Limit(dops, j, |dops[j]| - 1);
            && 0 < n <= |Flatten(dops)| == |Flatten(omitted)|
            && ReplayAll(initial, Selected(Flatten(dops), Flatten(omitted), n))
               == RunRecordedAll(initial, Without(ms, i, j))
  {
    hide DiskOps, Flatten, ReplayAll, RunRecordedAll, Selected, CompileAll, Kept;
    OtherRows(omitted, i);
    RowsState(ms, mode, dops, omitted, j + 1);
    BeforeGrows(dops, i, j + 1);
    if ms[i].Print? {
      KeptAll(ms, omitted, j + 1);
    } else {
      assert omitted[i][0] in omitted[i];
      assert omitted[i][0];
      KeptButOne(ms, omitted, i, j + 1);
    }
    CompileAllMeaning(initial, mode, Without(ms, i, j));
  }

  /** The states found for an omitted micro operation i: one for each end j where that is legal, and
      each the run of the trace up to j without i. */
  ghost predicate OrderingFound(ms: seq<MicroOp>, dops: seq<seq<DiskOp>>, patch: set<int>, initial: Tree, i: nat,
      end: nat, states: map<nat, Tree>)
    requires i < |ms| == |dops| && end <= |ms|
  {
    && (forall j: nat :: j in states <==>
        i < j < end && |dops[j]| > 0 && j !in patch && CanReorder(ms, dops, i, j))
    && (forall j :: j in states && j < |ms| ==> states[j] == RunRecordedAll(initial, Without(ms, i, j)))
  }

  /** The inner loop over all ends j after the omitted micro operation i. */
  method OrderingOf(r: Replayer, initial: Tree, patch: set<int>, i: nat) returns (states: map<nat, Tree>)
    requires r.Ready() && i < |r.microOps| && |r.diskOps[i]| > 0 && OnlyOmits(r.omitted, i)
    requires if r.microOps[i].Print? then true !in r.omitted[i] else false !in r.omitted[i]
    modifies r`microEnd, r`diskEnd
    ensures OrderingFound(r.microOps, r.diskOps, patch, initial, i, |r.microOps|, states)
  {
    hide DiskOps, LegalState, FsDepList, CanReorder, Without, RunRecordedAll, Flatten, Selected, ReplayAll;
    states := map[];
    for j := i + 1 to |r.microOps|
      invariant OrderingFound(r.microOps, r.diskOps, patch, initial, i, j, states)
    {
      if |r.diskOps[j]| == 0 || j in patch {
        continue;
      }
      r.DopsEndAt(j, |r.diskOps[j]| - 1);
      var legal := r.IsLegal();
      OrderingLegal(r.microOps, r.mode, r.diskOps, r.omitted, i, j);
      if legal {
        var tree := r.ConstructCrashedDir(initial);
        OrderingState(r.microOps, r.mode, r.diskOps, r.omitted, initial, i, j);
        states := states[j := tree.value];
      }
    }
  }

  lemma OmittedThenIncluded(omitted: Flags, i: nat, n: nat)
    requires NothingOmitted(omitted) && i < |omitted| && |omitted[i]| == n
    ensures OnlyOmits(omitted, i) && OnlyOmits(omitted[i := AllOmitted(n)], i) && true !in omitted[i]
    ensures omitted[i := NoneOmitted(n)] == omitted[i := AllOmitted(n)][i := NoneOmitted(n)] == omitted
  {
    forall a, b | 0 <= a < |omitted| && 0 <= b < |omitted[a]| ensures !omitted[a][b] {
      assert omitted[a][b] in omitted[a];
    }
    var none := NoneOmitted(n);
    forall b | 0 <= b < n ensures !none[b] {
      assert none[b] in none;
    }
    assert none == omitted[i];
  }

  /** The second phase builds exactly the states of the pairs that can be reordered, each the run of
      the trace up to j without i, and puts everything back. */
  method OrderingStates(r: Replayer, initial: Tree, patch: set<int>) returns (states: map<nat, map<nat, Tree>>)
    requires r.Ready() && NothingOmitted(r.omitted)
    modifies r
    ensures r.Ready() && r.omitted == old(r.omitted) && r.microOps == old(r.microOps) && r.diskOps == old(r.diskOps)
    ensures forall i: nat :: i in states <==> Considered(r.diskOps, patch, i)
    ensures forall i :: i in states && i < |r.microOps| ==>
      OrderingFound(r.microOps, r.diskOps, patch, initial, i, |r.microOps|, states[i])
  {
    hide DiskOps, FsDepList, Flatten, NothingOmitted, OnlyOmits, OrderingFound;
    states := map[];
    for i := 0 to |r.microOps|
      invariant r.Ready() && r.omitted == old(r.omitted)
      invariant r.microOps == old(r.microOps) && r.diskOps == old(r.diskOps) && r.suite == old(r.suite)
      invariant forall a: nat :: a in states <==> a < i && Considered(r.diskOps, patch, a)
      invariant forall a :: a in states && a < |r.microOps| ==>
        OrderingFound(r.microOps, r.diskOps, patch, initial, a, |r.microOps|, states[a])
    {
      if |r.diskOps[i]| == 0 || i in patch || i - 1 in patch {
        continue;
      }
      OmittedThenIncluded(r.omitted, i, |r.diskOps[i]|);
      OmitAll(r, i);
      var found := OrderingOf(r, initial, patch, i);
      states := states[i := found];
      IncludeAll(r, i);
    }
  }

  // ----- atomicity -----

  /** Inside one micro operation every cut and every omission is legal, except for sync(). */
  lemma AtomicityLegal(ms: seq<MicroOp>, mode: Splitting, dops: seq<seq<DiskOp>>, omitted: Flags, i: nat, j: nat)
    requires Compiled(ms, mode, dops) && SameShape(dops, omitted) && OnlyOmits(omitted, i)
    requires i < |ms| && j < |dops[i]| - 1
    ensures LegalState(ms, dops, omitted, FsDepList(Flatten(dops)), i, j) <==> !ms[i].SyncEverything?
  {
    hide FsDepList, Flatten;
    if !ms[i].SyncEverything? {
      assert !IsSyncOp(ms[i]) && !ms[i].Print?;
      OmissionIsLegal(ms, mode, dops, omitted, i, i, j);
    }
  }

  /** The first j + 1 disk operations of a row, all of them or without the k-th. */
  function Torn(row: seq<DiskOp>, j: nat, hole: Option<nat>): seq<DiskOp>
    requires j < |row| && (hole.Some? ==> hole.value <= j)
  {
    if hole.Some? then row[..hole.value] + row[hole.value + 1..j + 1] else row[..j + 1]
  }

  /** Only that disk operation of micro operation i is left out, if any. */
  ghost predicate Holed(omitted: Flags, i: nat, hole: Option<nat>)
    requires i < |omitted|
  {
    OnlyOmits(omitted, i) && forall k: nat :: k < |omitted[i]| ==> (omitted[i][k] <==> hole == Some(k))
  }

  /** The state the third phase builds: everything before micro operation i, and a torn piece of it. */
  lemma AtomicityState(ms: seq<MicroOp>, mode: Splitting, dops: seq<seq<DiskOp>>, omitted: Flags, initial: Tree, i: nat,
      j: nat, hole: Option<nat>)
    requires Compiled(ms, mode, dops) && SameShape(dops, omitted) && i < |ms| && j < |dops[i]|
    requires Holed(omitted, i, hole) && (hole.Some? ==> hole.value <= j)
    ensures var n := Limit(dops, i, j);
            && 0 < n <= |Flatten(dops)| == |Flatten(omitted)|
            && ReplayAll(initial, Selected(Flatten(dops), Flatten(omitted), n)) ==
               ReplayAll(RunRecordedAll(initial, ms[..i]), Torn(DiskOps(mode, ms[i]), j, hole))
  {
    hide DiskOps, Flatten, ReplayAll, RunRecordedAll, CompileAll;
    OtherRows(omitted, i);
    RowsState(ms, mode, dops, omitted, i);
    KeptAll(ms, omitted, i);
    SelectedRow(dops, omitted, i, j + 1);
    if hole.Some? {
      SelectedButOne(dops[i], omitted[i], hole.value, j + 1);
    } else {
      SelectedAll(dops[i], omitted[i], j + 1);
    }
    ReplayConcat(initial, CompileAll(mode, ms[..i]), Torn(dops[i], j, hole));
    CompileAllMeaning(initial, mode, ms[..i]);
  }

  /** The state after disk operation j of micro operation i, possibly with a hole. */
  ghost function TornState(ms: seq<MicroOp>, mode: Splitting, initial: Tree, i: nat, j: nat, hole: Option<nat>): Tree
    requires Usable(mode) && i < |ms| && j < |DiskOps(mode, ms[i])| && (hole.Some? ==> hole.value <= j)
  {
    ReplayAll(RunRecordedAll(initial, ms[..i]), Torn(DiskOps(mode, ms[i]), j, hole))
  }

  /** The directory after disk operation j of micro operation i with the flags as they are, if legal. */
  method BuildTorn(r: Replayer, initial: Tree, i: nat, j: nat, ghost hole: Option<nat>) returns (tree: Option<Tree>)
    requires r.Ready() && i < |r.microOps| && j < |r.diskOps[i]| - 1
    requires Holed(r.omitted, i, hole) && (hole.Some? ==> hole.value <= j)
    modifies r`microEnd, r`diskEnd
    ensures tree == if r.microOps[i].SyncEverything? then None
      else Some(TornState(r.microOps, r.mode, initial, i, j, hole))
  {
    hide DiskOps, FsDepList, LegalState, Flatten, OmittedIds, ReplayAll, RunRecordedAll, Torn, Selected;
    r.DopsEndAt(i, j);
    var legal := r.IsLegal();
    AtomicityLegal(r.microOps, r.mode, r.diskOps, r.omitted, i, j);
    if !legal {
      return None;
    }
    tree := r.ConstructCrashedDir(initial);
    AtomicityState(r.microOps, r.mode, r.diskOps, r.omitted, initial, i, j, hole);
  }

  lemma NoHole(omitted: Flags, i: nat)
    requires NothingOmitted(omitted) && i < |omitted|
    ensures Holed(omitted, i, None)
  {
    forall a, b | 0 <= a < |omitted| && 0 <= b < |omitted[a]| ensures !omitted[a][b] {
      assert omitted[a][b] in omitted[a];
    }
  }

  lemma OneHole(omitted: Flags, i: nat, k: nat)
    requires NothingOmitted(omitted) && i < |omitted| && k < |omitted[i]|
    ensures Holed(omitted[i := omitted[i][k := true]], i, Some(k))
    ensures omitted[i := omitted[i][k := true]][i := omitted[i][k := true][k := false]] == omitted
  {
    NoHole(omitted, i);
    assert omitted[i][k := true][k := false] == omitted[i];
  }

  /** The cut after disk operation j of micro operation i, and this cut with each earlier disk
      operation of the same micro operation left out. */
  method AtomicityOf(r: Replayer, initial: Tree, i: nat, j: nat) returns (cut: Option<Tree>, holes: map<nat, Tree>)
    requires r.Ready() && NothingOmitted(r.omitted) && i < |r.microOps| && j < |r.diskOps[i]| - 1
    modifies r
    ensures r.Ready() && r.omitted == old(r.omitted)
    ensures r.microOps == old(r.microOps) && r.diskOps == old(r.diskOps) && r.suite == old(r.suite)
    ensures r.mode == old(r.mode)
    ensures cut == if r.microOps[i].SyncEverything? then None
      else Some(TornState(r.microOps, r.mode, initial, i, j, None))
    ensures forall k: nat :: k in holes <==> k < j && !r.microOps[i].SyncEverything?
    ensures forall k :: k in holes ==> holes[k] == TornState(r.microOps, r.mode, initial, i, j, Some(k))
  {
    hide DiskOps, FsDepList, LegalState, Flatten, OmittedIds, TornState, Holed, NothingOmitted;
    NoHole(r.omitted, i);
    cut := BuildTorn(r, initial, i, j, None);
    holes := map[];
    for k := 0 to j
      invariant r.Ready() && r.omitted == old(r.omitted) && r.mode == old(r.mode)
      invariant r.microOps == old(r.microOps) && r.diskOps == old(r.diskOps) && r.suite == old(r.suite)
      invariant forall a: nat :: a in holes <==> a < k && !r.microOps[i].SyncEverything?
      invariant forall a :: a in holes ==> holes[a] == TornState(r.microOps, r.mode, initial, i, j, Some(a))
    {
      if r.microOps[i].Print? {
        PrintIsWhole(r.microOps, r.mode, r.diskOps, i);
      }
      OneHole(r.omitted, i, k);
      r.DopsOmit(i, k);
      var tree := BuildTorn(r, initial, i, j, Some(k));
      if tree.Some? {
        holes := holes[k := tree.value];
      }
      r.DopsInclude(i, k);
    }
  }

  /** A print has no inside. */
  lemma PrintIsWhole(ms: seq<MicroOp>, mode: Splitting, dops: seq<seq<DiskOp>>, i: nat)
    requires Compiled(ms, mode, dops) && i < |ms| && ms[i].Print?
    ensures |dops[i]| == 1
  {}

  /** A cut, and the same cut with each earlier disk operation of the micro operation missing. */
  datatype CrashCut = CrashCut(whole: Tree, holed: map<nat, Tree>)

  ghost predicate CutBuilt(ms: seq<MicroOp>, mode: Splitting, initial: Tree, i: nat, j: nat, cut: CrashCut)
    requires Usable(mode) && i < |ms| && j < |DiskOps(mode, ms[i])|
  {
    && cut.whole == TornState(ms, mode, initial, i, j, None)
    && (forall k: nat :: k in cut.holed <==> k < j)
    && (forall k :: k in cut.holed ==> cut.holed[k] == TornState(ms, mode, initial, i, j, Some(k)))
  }

  /** All cuts after the first n disk operations of micro operation i; none inside a sync(). */
  ghost predicate CutsBuilt(ms: seq<MicroOp>, mode: Splitting, dops: seq<seq<DiskOp>>, initial: Tree, i: nat, n: nat,
      cuts: map<nat, CrashCut>)
    requires Compiled(ms, mode, dops) && i < |ms| && n <= |dops[i]|
  {
    && (forall j: nat :: j in cuts <==> j < n && !ms[i].SyncEverything?)
    && (forall j :: j in cuts ==> CutBuilt(ms, mode, initial, i, j, cuts[j]))
  }

  /** The loop over the cuts of one micro operation. */
  method AtomicityRow(r: Replayer, initial: Tree, i: nat) returns (cuts: map<nat, CrashCut>)
    requires r.Ready() && NothingOmitted(r.omitted) && i < |r.microOps| && |r.diskOps[i]| > 0
    modifies r
    ensures r.Ready() && r.omitted == old(r.omitted) && r.mode == old(r.mode)
    ensures r.microOps == old(r.microOps) && r.diskOps == old(r.diskOps) && r.suite == old(r.suite)
    ensures CutsBuilt(r.microOps, r.mode, r.diskOps, initial, i, |r.diskOps[i]| - 1, cuts)
  {
    hide DiskOps, FsDepList, LegalState, Flatten, OmittedIds, TornState, NothingOmitted;
    cuts := map[];
    for j := 0 to |r.diskOps[i]| - 1
      invariant r.Ready() && r.omitted == old(r.omitted) && r.mode == old(r.mode)
      invariant r.microOps == old(r.microOps) && r.diskOps == old(r.diskOps) && r.suite == old(r.suite)
      invariant CutsBuilt(r.microOps, r.mode, r.diskOps, initial, i, j, cuts)
    {
      var cut, holes := AtomicityOf(r, initial, i, j);
      if cut.Some? {
        assert CutBuilt(r.microOps, r.mode, initial, i, j, CrashCut(cut.value, holes));
        hide CutBuilt;
        cuts := cuts[j := CrashCut(cut.value, holes)];
      }
    }
  }

  /** The third phase in one split mode: every cut inside a micro operation, and every cut with one
      more disk operation missing, but never inside a sync() or around an atomic patch. */
  method AtomicityStates(r: Replayer, initial: Tree, patch: set<int>) returns (states: map<nat, map<nat, CrashCut>>)
    requires r.Ready() && NothingOmitted(r.omitted)
    modifies r
    ensures r.Ready() && r.omitted == old(r.omitted) && r.mode == old(r.mode)
    ensures r.microOps == old(r.microOps) && r.diskOps == old(r.diskOps)
    ensures forall i: nat :: i in states <==> Considered(r.diskOps, patch, i)
    ensures forall i :: i in states && i < |r.microOps| && |r.diskOps[i]| > 0 ==>
      CutsBuilt(r.microOps, r.mode, r.diskOps, initial, i, |r.diskOps[i]| - 1, states[i])
  {
    hide DiskOps, FsDepList, LegalState, Flatten, OmittedIds, CutsBuilt, NothingOmitted;
    states := map[];
    for i := 0 to |r.microOps|
      invariant r.Ready() && r.omitted == old(r.omitted) && r.mode == old(r.mode)
      invariant r.microOps == old(r.microOps) && r.diskOps == old(r.diskOps) && r.suite == old(r.suite)
      invariant forall a: nat :: a in states <==> a < i && Considered(r.diskOps, patch, a)
      invariant forall a :: a in states && a < |r.microOps| && |r.diskOps[a]| > 0 ==>
        CutsBuilt(r.microOps, r.mode, r.diskOps, initial, a, |r.diskOps[a]| - 1, states[a])
    {
      if i in patch || i - 1 in patch || |r.diskOps[i]| == 0 {
        continue;
      }
      var cuts := AtomicityRow(r, initial, i);
      states := states[i := cuts];
    }
  }
}
