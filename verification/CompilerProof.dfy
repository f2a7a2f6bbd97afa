/** The compiled disk operations mean what the micro operations mean, in every split mode,
    and what every crash inside one micro operation leaves behind. */
module CompilerProof {
  import opened Ops
  import opened Files
  import opened Replay
  import opened Slices
  import opened Compiler

  // ----- the meaning of micro operations -----

  /** One micro operation, without any disk operation in between. */
  function Run(t: Tree, m: MicroOp): Tree {
    match m
    case Creat(parent, name, inode) => t.(entries := t.entries[(parent, name) := inode])
    case Link(destParent, dest, sourceInode) => t.(entries := t.entries[(destParent, dest) := sourceInode])
    case Unlink(parent, name, inode, _, hardlinks) => RemoveLink(t, parent, name, inode, hardlinks)
    case Rename(sourceParent, source, sourceInode, destParent, dest, destInode, _, destHardlinks) =>
      var t1 := if destHardlinks >= 1 then RemoveLink(t, destParent, dest, destInode, destHardlinks) else t;
      t1.(entries := (t1.entries - {(sourceParent, source)})[(destParent, dest) := sourceInode])
    case Trunc(inode, _, finalSize) => SetContent(t, inode, Resize(Content(t, inode), finalSize))
    case Append(inode, offset, count, file, at) =>
      SetContent(t, inode, PWrite(Content(t, inode), offset, DumpBytes(file, at, count)))
    case Overwrite(inode, offset, count, file, at) =>
      SetContent(t, inode, PWrite(Content(t, inode), offset, DumpBytes(file, at, count)))
    case _ => t
  }

  /** Removing the last link discards the contents. */
  function RemoveLink(t: Tree, parent: int, name: string, inode: int, hardlinks: nat): Tree {
    var t1 := if hardlinks == 1 then SetContent(t, inode, []) else t;
    t1.(entries := t1.entries - {(parent, name)})
  }

  /** What the compiled truncation does to a file: from the recorded size on it writes zeros,
      whatever is there. */
  function TruncResult(f: File, initialSize: nat, finalSize: nat): File {
    if initialSize <= finalSize then PWrite(f, initialSize, Fill(Zero, finalSize - initialSize))
      else Resize(f, finalSize)
  }

  /** The compiled unlink only cuts a file that was recorded as not empty. */
  function UnlinkRecorded(t: Tree, parent: int, name: string, inode: int, size: nat, hardlinks: nat): Tree {
    var t1 := if hardlinks == 1 && size > 0 then SetContent(t, inode, []) else t;
    t1.(entries := t1.entries - {(parent, name)})
  }

  /** What a micro operation does through the sizes that were recorded for it, true or not. */
  function RunRecorded(t: Tree, m: MicroOp): Tree {
    match m
    case Unlink(parent, name, inode, size, hardlinks) => UnlinkRecorded(t, parent, name, inode, size, hardlinks)
    case Rename(sourceParent, source, sourceInode, destParent, dest, destInode, destSize, destHardlinks) =>
      var t1 := if destHardlinks >= 1 then UnlinkRecorded(t, destParent, dest, destInode, destSize, destHardlinks)
        else t;
      t1.(entries := (t1.entries - {(sourceParent, source)})[(destParent, dest) := sourceInode])
    case Trunc(inode, initialSize, finalSize) =>
      SetContent(t, inode, TruncResult(Content(t, inode), initialSize, finalSize))
    case _ => Run(t, m)
  }

  /** Recorded sizes that do no harm: a cut always works; growing needs zeros, or nothing, after
      the recorded size; what goes with a last link is empty or was recorded as not empty. */
  predicate CompilesExactly(t: Tree, m: MicroOp) {
    match m
    case Trunc(inode, initialSize, finalSize) =>
      var f := Content(t, inode);
      || initialSize > finalSize
      || (initialSize == finalSize == |f|)
      || (initialSize < finalSize && |f| <= finalSize && AllZero(f, initialSize, finalSize))
    case Unlink(_, _, inode, size, hardlinks) => hardlinks == 1 ==> size > 0 || Content(t, inode) == []
    case Rename(_, _, _, _, _, destInode, destSize, destHardlinks) =>
      destHardlinks == 1 ==> destSize > 0 || Content(t, destInode) == []
    case _ => true
  }

  // ----- jobs -----

  predicate Writes(job: Job, start: nat) {
    job.Grow? || ((job.AppendFrom? || job.OverwriteFrom?) && job.base <= start)
  }

  /** The final bytes of [start, start + n). */
  function JobData(job: Job, start: nat, n: nat): (r: File)
    requires !job.Cut?
    ensures |r| == n
  {
    if job.Grow? then Fill(Zero, n) else DumpBytes(job.file, DumpAt(job, start), n)
  }

  function Width(job: Job): nat {
    match job
    case Grow => 2
    case Cut => 1
    case AppendFrom(_, _, _) => 3
    case OverwriteFrom(_, _, _) => 1
  }

  /** What is on top of a slice after the first r of its disk operations. */
  function Layer(job: Job, s: Slice, r: nat): (f: File)
    requires !job.Cut? && r <= Width(job)
    ensures |f| == if r == 0 then 0 else s.count
  {
    if r == 0 then []
    else
      match job
      case Grow => Fill(if r == 1 then Junk else Zero, s.count)
      case AppendFrom(_, file, _) =>
        if r < 3 then Fill(if r == 1 then Zero else Junk, s.count) else DumpBytes(file, DumpAt(job, s.start), s.count)
      case OverwriteFrom(_, file, _) => DumpBytes(file, DumpAt(job, s.start), s.count)
  }

  /** The r-th operation of a slice writes the r-th layer over the whole slice. */
  lemma LayerOp(inode: int, job: Job, s: Slice, r: nat)
    requires !job.Cut? && 0 < r <= Width(job)
    ensures |SliceOps(inode, job, s)| == Width(job)
    ensures var op := SliceOps(inode, job, s)[r - 1];
            op.Write? && op.inode == inode && op.offset == s.start && Payload(op.data, op.count) == Layer(job, s, r)
  {
    hide Fill, DumpBytes;
  }

  lemma {:induction false} SliceEffect(f: File, inode: int, job: Job, s: Slice, r: nat)
    requires !job.Cut? && r <= Width(job)
    ensures |SliceOps(inode, job, s)| == Width(job)
    ensures ReplayFile(f, SliceOps(inode, job, s)[..r]) == PWrite(f, s.start, Layer(job, s, r))
  {
    hide PWrite, SliceOps, Layer, Payload;
    LayerOp(inode, job, s, 1);
    var ops := SliceOps(inode, job, s);
    NoLayer(f, job, s);
    if r == 0 {
    } else {
      SliceEffect(f, inode, job, s, r - 1);
      LayerOp(inode, job, s, r);
      assert ops[..r][..r - 1] == ops[..r - 1];
      if r > 1 {
        OverwriteWins(f, s.start, Layer(job, s, r - 1), Layer(job, s, r));
      }
    }
  }

  lemma NoLayer(f: File, job: Job, s: Slice)
    requires !job.Cut?
    ensures PWrite(f, s.start, Layer(job, s, 0)) == f
  {}

  lemma SliceData(f: File, inode: int, job: Job, s: Slice)
    requires Writes(job, s.start)
    ensures ReplayFile(f, SliceOps(inode, job, s)) == PWrite(f, s.start, JobData(job, s.start, s.count))
  {
    assert SliceOps(inode, job, s)[..Width(job)] == SliceOps(inode, job, s);
    SliceEffect(f, inode, job, s, Width(job));
    assert Layer(job, s, Width(job)) == JobData(job, s.start, s.count);
  }

  lemma JobDataSplit(job: Job, start: nat, mid: nat, end: nat)
    requires start <= mid <= end && Writes(job, start)
    ensures JobData(job, start, mid - start) + JobData(job, mid, end - mid) == JobData(job, start, end - start)
  {}

  lemma OneMoreSlice(f: File, inode: int, job: Job, done: seq<DiskOp>, s: Slice, start: nat)
    requires start <= s.start && Writes(job, start)
    requires ReplayFile(f, done) == PWrite(f, start, JobData(job, start, s.start - start))
    ensures ReplayFile(f, done + SliceOps(inode, job, s)) == PWrite(f, start, JobData(job, start, s.End() - start))
  {
    hide PWrite, JobData, SliceOps;
    var a, b := JobData(job, start, s.start - start), JobData(job, s.start, s.count);
    ReplayFileConcat(f, done, SliceOps(inode, job, s));
    SliceData(PWrite(f, start, a), inode, job, s);
    AdjacentWrites(f, start, a, b);
    JobDataSplit(job, start, s.start, s.End());
  }

  /** All slices together are one write of the whole range. */
  lemma {:induction false} JobEffect(f: File, inode: int, job: Job, slices: seq<Slice>, start: nat, end: nat)
    requires Tiles(slices, start, end) && start <= end && Writes(job, start)
    ensures ReplayFile(f, JobOps(inode, job, slices)) == PWrite(f, start, JobData(job, start, end - start))
    decreases |slices|
  {
    hide PWrite, SliceOps, JobData, ApplyToFile;
    if slices == [] {
      WriteNothing(f, start, JobData(job, start, end - start));
    } else {
      var n := |slices| - 1;
      JobEffect(f, inode, job, slices[..n], start, slices[n].start);
      OneMoreSlice(f, inode, job, JobOps(inode, job, slices[..n]), slices[n], start);
    }
  }

  lemma {:induction false} ShrinkEffect(f: File, inode: int, slices: seq<Slice>, start: nat, end: nat)
    requires Tiles(slices, start, end) && start <= end && slices != []
    ensures ReplayFile(f, ShrinkOps(inode, slices)) == Resize(f, start)
    decreases |slices|
  {
    var n := |slices| - 1;
    var s := slices[n];
    var cut := Truncate(inode, s.End(), s.start);
    ReplayFileConcat(f, [cut], ShrinkOps(inode, slices[..n]));
    assert ReplayFile(f, [cut]) == Resize(f, s.start);
    if n == 0 {
    } else {
      ShrinkEffect(Resize(f, s.start), inode, slices[..n], start, s.start);
      ResizeTwice(f, s.start, start);
    }
  }

  /** A compiled truncation, for any recorded size. */
  lemma TruncEffect(f: File, mode: Splitting, inode: int, initialSize: nat, finalSize: nat)
    requires Usable(mode)
    ensures ReplayFile(f, TruncSpec(mode, inode, initialSize, finalSize)) == TruncResult(f, initialSize, finalSize)
  {
    hide Resize, SlicesOf, JobOps, ShrinkOps, ReplayFile, PWrite, Fill;
    if initialSize <= finalSize {
      SlicesTile(mode, initialSize, finalSize - initialSize);
      JobEffect(f, inode, Grow, SlicesOf(mode, initialSize, finalSize - initialSize), initialSize, finalSize);
    } else {
      SlicesTile(mode, finalSize, initialSize - finalSize);
      ShrinkEffect(f, inode, SlicesOf(mode, finalSize, initialSize - finalSize), finalSize, initialSize);
    }
  }

  /** It is ftruncate() exactly for these recorded sizes. */
  lemma TruncExact(f: File, initialSize: nat, finalSize: nat)
    requires initialSize <= finalSize
    ensures TruncResult(f, initialSize, finalSize) == Resize(f, finalSize) <==>
      if initialSize == finalSize then |f| == finalSize else |f| <= finalSize && AllZero(f, initialSize, finalSize)
  {
    var zeros := Fill(Zero, finalSize - initialSize);
    var left, right := TruncResult(f, initialSize, finalSize), Resize(f, finalSize);
    if initialSize == finalSize {
      WriteNothing(f, initialSize, zeros);
    } else if |f| <= finalSize {
      forall k: nat | k < finalSize
        ensures left[k] == if initialSize <= k then Zero else right[k]
        ensures right[k] == if k < |f| then f[k] else Zero
      {
        PWriteAt(f, initialSize, zeros, k);
      }
      if AllZero(f, initialSize, finalSize) {
        assert left == right;
      } else {
        var k :| initialSize <= k < finalSize && k < |f| && f[k] != Zero;
        assert left[k] != right[k];
      }
    }
  }

  // ----- back to the tree -----

  lemma {:induction false} JobOpsAreFileOps(inode: int, job: Job, slices: seq<Slice>)
    ensures forall i :: 0 <= i < |JobOps(inode, job, slices)| ==> IsFileOp(JobOps(inode, job, slices)[i], inode)
    decreases |slices|
  {
    if slices == [] {
    } else {
      JobOpsAreFileOps(inode, job, slices[..|slices| - 1]);
    }
  }

  lemma {:induction false} ShrinkOpsAreFileOps(inode: int, slices: seq<Slice>)
    ensures forall i :: 0 <= i < |ShrinkOps(inode, slices)| ==> IsFileOp(ShrinkOps(inode, slices)[i], inode)
    decreases |slices|
  {
    if slices == [] {
    } else {
      ShrinkOpsAreFileOps(inode, slices[..|slices| - 1]);
    }
  }

  lemma TruncInTree(t: Tree, mode: Splitting, inode: int, initialSize: nat, finalSize: nat)
    requires Usable(mode)
    ensures ReplayAll(t, TruncSpec(mode, inode, initialSize, finalSize)) ==
      SetContent(t, inode, TruncResult(Content(t, inode), initialSize, finalSize))
  {
    hide TruncResult, SetContent, JobOps, ShrinkOps, SlicesOf, ReplayAll, ReplayFile;
    if initialSize <= finalSize {
      JobOpsAreFileOps(inode, Grow, SlicesOf(mode, initialSize, finalSize - initialSize));
    } else {
      ShrinkOpsAreFileOps(inode, SlicesOf(mode, finalSize, initialSize - finalSize));
    }
    ReplayOneFile(t, inode, TruncSpec(mode, inode, initialSize, finalSize));
    TruncEffect(Content(t, inode), mode, inode, initialSize, finalSize);
  }

  lemma DataInTree(t: Tree, mode: Splitting, inode: int, job: Job, offset: nat, count: nat)
    requires Usable(mode) && (job.AppendFrom? || job.OverwriteFrom?) && job.base == offset
    ensures ReplayAll(t, JobOps(inode, job, SlicesOf(mode, offset, count))) ==
      SetContent(t, inode, PWrite(Content(t, inode), offset, DumpBytes(job.file, job.at, count)))
  {
    hide PWrite, SlicesOf, SetContent, JobOps, DumpBytes, ReplayFile, ReplayAll;
    var slices := SlicesOf(mode, offset, count);
    SlicesTile(mode, offset, count);
    JobOpsAreFileOps(inode, job, slices);
    ReplayOneFile(t, inode, JobOps(inode, job, slices));
    JobEffect(Content(t, inode), inode, job, slices, offset, offset + count);
  }

  lemma ReplayOne(t: Tree, op: DiskOp)
    ensures ReplayAll(t, [op]) == Apply(t, op)
  {}

  lemma UnlinkEffect(t: Tree, mode: Splitting, parent: int, name: string, inode: int, size: nat, hardlinks: nat)
    requires Usable(mode)
    ensures ReplayAll(t, UnlinkSpec(mode, parent, name, inode, size, hardlinks)) ==
      UnlinkRecorded(t, parent, name, inode, size, hardlinks)
  {
    hide TruncSpec, ReplayAll, PWrite;
    var first := if hardlinks == 1 then TruncSpec(mode, inode, size, 0) else [];
    if hardlinks == 1 {
      TruncInTree(t, mode, inode, size, 0);
      if size == 0 {
        WriteNothing(Content(t, inode), 0, Fill(Zero, 0));
        SetSame(t, inode);
      }
    } else {
      ReplayNothing(t);
    }
    ReplayConcat(t, first, [DeleteEntry(parent, name, inode)]);
    ReplayOne(ReplayAll(t, first), DeleteEntry(parent, name, inode));
  }

  lemma ReplayNothing(t: Tree)
    ensures ReplayAll(t, []) == t
  {}

  lemma {:induction false} SyncsDoNothing(t: Tree, ops: seq<DiskOp>)
    requires forall i :: 0 <= i < |ops| ==> ops[i].Sync?
    ensures ReplayAll(t, ops) == t
    decreases |ops|
  {
    if ops == [] {
    } else {
      SyncsDoNothing(t, ops[..|ops| - 1]);
    }
  }

  lemma RenameEffect(t: Tree, mode: Splitting, m: MicroOp)
    requires Usable(mode) && m.Rename?
    ensures ReplayAll(t, DiskOps(mode, m)) == RunRecorded(t, m)
  {
    hide UnlinkSpec;
    var first := if m.destHardlinks >= 1
      then UnlinkSpec(mode, m.destParent, m.dest, m.destInode, m.destSize, m.destHardlinks) else [];
    var delete := DeleteEntry(m.sourceParent, m.source, m.sourceInode);
    var create := CreateEntry(m.destParent, m.dest, m.sourceInode);
    if m.destHardlinks >= 1 {
      UnlinkEffect(t, mode, m.destParent, m.dest, m.destInode, m.destSize, m.destHardlinks);
    }
    ReplayConcat(t, first, [delete, create]);
    var t1 := ReplayAll(t, first);
    assert [delete, create] == [delete] + [create];
    ReplayConcat(t1, [delete], [create]);
    ReplayOne(t1, delete);
    ReplayOne(Apply(t1, delete), create);
  }

  /** The meaning of one compiled micro operation, in every state and split mode. */
  lemma CompileMeaning(t: Tree, mode: Splitting, m: MicroOp)
    requires Usable(mode)
    ensures ReplayAll(t, DiskOps(mode, m)) == RunRecorded(t, m)
  {
    hide ReplayAll, JobOps, SlicesOf, TruncSpec, UnlinkSpec, TruncResult, UnlinkRecorded, SetContent, PWrite, DumpBytes;
    match m {
      case Unlink(parent, name, inode, size, hardlinks) =>
        UnlinkEffect(t, mode, parent, name, inode, size, hardlinks);
      case Rename(_, _, _, _, _, _, _, _) =>
        hide DiskOps, RunRecorded;
        RenameEffect(t, mode, m);
      case Trunc(inode, initialSize, finalSize) =>
        TruncInTree(t, mode, inode, initialSize, finalSize);
      case Append(inode, offset, count, file, at) =>
        DataInTree(t, mode, inode, AppendFrom(offset, file, at), offset, count);
      case Overwrite(inode, offset, count, file, at) =>
        DataInTree(t, mode, inode, OverwriteFrom(offset, file, at), offset, count);
      case SyncEverything(_) =>
        SyncsDoNothing(t, DiskOps(mode, m));
      case _ =>
        ReplayOne(t, DiskOps(mode, m)[0]);
    }
  }

  lemma RecordedIsExact(t: Tree, m: MicroOp)
    ensures RunRecorded(t, m) == Run(t, m) <==> CompilesExactly(t, m)
  {
    hide TruncResult, Resize, PWrite;
    match m {
      case Trunc(inode, initialSize, finalSize) =>
        var f := Content(t, inode);
        assert Content(RunRecorded(t, m), inode) == TruncResult(f, initialSize, finalSize);
        assert Content(Run(t, m), inode) == Resize(f, finalSize);
        if initialSize <= finalSize {
          TruncExact(f, initialSize, finalSize);
        } else {
          CutIsResize(f, initialSize, finalSize);
        }
      case Unlink(_, _, inode, size, hardlinks) =>
        CutIsHarmless(t, inode);
      case Rename(_, _, _, _, _, destInode, _, _) =>
        CutIsHarmless(t, destInode);
      case _ =>
    }
  }

  lemma CutIsResize(f: File, initialSize: nat, finalSize: nat)
    requires initialSize > finalSize
    ensures TruncResult(f, initialSize, finalSize) == Resize(f, finalSize)
  {}

  lemma CutIsHarmless(t: Tree, inode: int)
    ensures SetContent(t, inode, []).files == t.files <==> Content(t, inode) == []
  {
    if Content(t, inode) == [] {
      SetSame(t, inode);
    }
  }

  /** Compiling preserves the meaning of a micro operation exactly for these recorded sizes. */
  lemma CompileOne(t: Tree, mode: Splitting, m: MicroOp)
    requires Usable(mode)
    ensures ReplayAll(t, DiskOps(mode, m)) == Run(t, m) <==> CompilesExactly(t, m)
  {
    hide DiskOps, ReplayAll, RunRecorded, Run, CompilesExactly;
    CompileMeaning(t, mode, m);
    RecordedIsExact(t, m);
  }

  // ----- whole programs -----

  function RunAll(t: Tree, ms: seq<MicroOp>): Tree {
    if ms == [] then t else Run(RunAll(t, ms[..|ms| - 1]), ms[|ms| - 1])
  }

  function RunRecordedAll(t: Tree, ms: seq<MicroOp>): Tree {
    if ms == [] then t else RunRecorded(RunRecordedAll(t, ms[..|ms| - 1]), ms[|ms| - 1])
  }

  function CompileAll(mode: Splitting, ms: seq<MicroOp>): seq<DiskOp>
    requires Usable(mode)
  {
    if ms == [] then [] else CompileAll(mode, ms[..|ms| - 1]) + DiskOps(mode, ms[|ms| - 1])
  }

  /** Every micro operation has harmless recorded sizes in the state it runs in. */
  predicate CompilesExactlyRun(t: Tree, ms: seq<MicroOp>) {
    ms == [] || (CompilesExactlyRun(t, ms[..|ms| - 1]) && CompilesExactly(RunAll(t, ms[..|ms| - 1]), ms[|ms| - 1]))
  }

  /** The meaning of a compiled program, whatever sizes were recorded. */
  lemma {:induction false} CompileAllMeaning(t: Tree, mode: Splitting, ms: seq<MicroOp>)
    requires Usable(mode)
    ensures ReplayAll(t, CompileAll(mode, ms)) == RunRecordedAll(t, ms)
    decreases |ms|
  {
    hide DiskOps, RunRecorded, ReplayAll;
    if ms == [] {
      ReplayNothing(t);
    } else {
      var n := |ms| - 1;
      CompileAllMeaning(t, mode, ms[..n]);
      ReplayConcat(t, CompileAll(mode, ms[..n]), DiskOps(mode, ms[n]));
      CompileMeaning(RunRecordedAll(t, ms[..n]), mode, ms[n]);
    }
  }

  /** After every micro operation the replay is the state of running the micro operations. */
  ghost predicate CompilesFaithfully(t: Tree, mode: Splitting, ms: seq<MicroOp>)
    requires Usable(mode)
  {
    forall n :: 0 <= n <= |ms| ==> ReplayAll(t, CompileAll(mode, ms[..n])) == RunAll(t, ms[..n])
  }

  lemma FaithfulSoFar(t: Tree, mode: Splitting, ms: seq<MicroOp>)
    requires Usable(mode) && ms != []
    ensures CompilesFaithfully(t, mode, ms) <==>
      && CompilesFaithfully(t, mode, ms[..|ms| - 1])
      && ReplayAll(t, CompileAll(mode, ms)) == RunAll(t, ms)
  {
    hide ReplayAll, CompileAll, RunAll;
    var n := |ms| - 1;
    assert forall k :: 0 <= k <= n ==> ms[..n][..k] == ms[..k];
    assert ms[..|ms|] == ms;
  }

  /** A program compiles faithfully if and only if each of its micro operations does in its turn. */
  lemma {:induction false} CompileCorrect(t: Tree, mode: Splitting, ms: seq<MicroOp>)
    requires Usable(mode)
    ensures CompilesFaithfully(t, mode, ms) <==> CompilesExactlyRun(t, ms)
    ensures CompilesExactlyRun(t, ms) ==> ReplayAll(t, CompileAll(mode, ms)) == RunAll(t, ms)
    decreases |ms|
  {
    if ms == [] {
      ReplayNothing(t);
      assert ms[..0] == ms;
    } else {
      hide DiskOps, Run, CompilesExactly, ReplayAll, CompilesFaithfully;
      var n := |ms| - 1;
      CompileCorrect(t, mode, ms[..n]);
      FaithfulSoFar(t, mode, ms);
      FaithfulAtEnd(t, mode, ms[..n]);
      ReplayConcat(t, CompileAll(mode, ms[..n]), DiskOps(mode, ms[n]));
      CompileOne(RunAll(t, ms[..n]), mode, ms[n]);
    }
  }

  lemma FaithfulAtEnd(t: Tree, mode: Splitting, ms: seq<MicroOp>)
    requires Usable(mode)
    ensures CompilesFaithfully(t, mode, ms) ==> ReplayAll(t, CompileAll(mode, ms)) == RunAll(t, ms)
  {
    assert ms[..|ms|] == ms;
  }

  /** The final state does not depend on how finely the operations were split, whatever was recorded. */
  lemma GranularityIsInvisible(t: Tree, mode: Splitting, mode': Splitting, ms: seq<MicroOp>)
    requires Usable(mode) && Usable(mode')
    ensures ReplayAll(t, CompileAll(mode, ms)) == ReplayAll(t, CompileAll(mode', ms))
  {
    CompileAllMeaning(t, mode, ms);
    CompileAllMeaning(t, mode', ms);
  }
}
