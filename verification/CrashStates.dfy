/** What a crash inside one micro operation leaves behind, and when the compiled rename
    agrees with rename(). */
module CrashStates {
  import opened Ops
  import opened Files
  import opened Replay
  import opened Slices
  import opened Compiler
  import opened CompilerProof

  // ----- prefixes of sliced jobs -----

  lemma {:induction false} JobOpsLength(inode: int, job: Job, slices: seq<Slice>)
    ensures |JobOps(inode, job, slices)| == |slices| * Width(job)
    decreases |slices|
  {
    if slices == [] {
    } else {
      JobOpsLength(inode, job, slices[..|slices| - 1]);
    }
  }

  /** The operations of the first q slices are a prefix of all operations. */
  lemma {:induction false} JobOpsPrefix(inode: int, job: Job, slices: seq<Slice>, q: nat)
    requires q <= |slices|
    ensures q * Width(job) <= |JobOps(inode, job, slices)|
    ensures JobOps(inode, job, slices)[..q * Width(job)] == JobOps(inode, job, slices[..q])
    decreases |slices|
  {
    hide SliceOps;
    JobOpsLength(inode, job, slices);
    JobOpsLength(inode, job, slices[..q]);
    if q == |slices| {
      assert slices[..q] == slices;
    } else {
      var n := |slices| - 1;
      JobOpsPrefix(inode, job, slices[..n], q);
      assert slices[..n][..q] == slices[..q];
      JobOpsLength(inode, job, slices[..n]);
    }
  }

  /** The operations up to the r-th one of slice q. */
  lemma PrefixInsideSlice(inode: int, job: Job, slices: seq<Slice>, q: nat, r: nat)
    requires q < |slices| && r <= Width(job)
    ensures q * Width(job) + r <= |JobOps(inode, job, slices)|
    ensures JobOps(inode, job, slices)[..q * Width(job) + r] ==
      JobOps(inode, job, slices[..q]) + SliceOps(inode, job, slices[q])[..r]
  {
    hide SliceOps;
    JobOpsPrefix(inode, job, slices, q);
    JobOpsPrefix(inode, job, slices, q + 1);
    JobStep(inode, job, slices, q);
    JobOpsLength(inode, job, slices[..q]);
    JobOpsLength(inode, job, slices[..q + 1]);
    var w := q * Width(job);
    assert (q + 1) * Width(job) == w + Width(job);
    assert JobOps(inode, job, slices)[..w + r] == JobOps(inode, job, slices)[..w + Width(job)][..w + r];
  }

  lemma {:induction false} TilesPrefix(slices: seq<Slice>, start: nat, end: nat, q: nat)
    requires Tiles(slices, start, end) && start <= end && q < |slices|
    ensures Tiles(slices[..q], start, slices[q].start) && start <= slices[q].start && slices[q].End() <= end
    ensures slices[q].count > 0
    decreases |slices|
  {
    var n := |slices| - 1;
    if q < n {
      TilesPrefix(slices[..n], start, slices[n].start, q);
      assert slices[..n][..q] == slices[..q];
    }
  }

  /** A crash after q whole slices and r operations of the next one: the finished slices hold
      their final bytes, the current slice holds the last layer written to it, and the rest
      of the file is as it was. */
  lemma CrashInsideJob(f: File, inode: int, job: Job, slices: seq<Slice>, start: nat, end: nat, q: nat, r: nat)
    requires Tiles(slices, start, end) && start <= end && Writes(job, start)
    requires q < |slices| && r <= Width(job)
    ensures var s := slices[q];
            && start <= s.start && s.End() <= end && q * Width(job) + r <= |JobOps(inode, job, slices)|
            && ReplayFile(f, JobOps(inode, job, slices)[..q * Width(job) + r])
               == PWrite(f, start, JobData(job, start, s.start - start) + Layer(job, s, r))
  {
    hide PWrite, JobData, Layer, JobOps, ReplayFile;
    var s := slices[q];
    TilesPrefix(slices, start, end, q);
    PrefixInsideSlice(inode, job, slices, q, r);
    var done := JobData(job, start, s.start - start);
    ReplayFileConcat(f, JobOps(inode, job, slices[..q]), SliceOps(inode, job, s)[..r]);
    JobEffect(f, inode, job, slices[..q], start, s.start);
    SliceEffect(PWrite(f, start, done), inode, job, s, r);
    AdjacentWrites(f, start, done, Layer(job, s, r));
  }

  /** What the r-th operation of an append leaves in its slice. */
  function AppendLayer(m: MicroOp, s: Slice, r: nat): File
    requires m.Append? && m.offset <= s.start
  {
    match r
    case 0 => []
    case 1 => Fill(Zero, s.count)
    case 2 => Fill(Junk, s.count)
    case _ => DumpBytes(m.file, m.at + (s.start - m.offset), s.count)
  }

  /** After any prefix of an append's disk operations the old bytes are intact, finished slices
      hold their data, and the file ends at the start or at the end of the current slice. */
  lemma AppendCrashStates(f: File, mode: Splitting, m: MicroOp, q: nat, r: nat)
    requires Usable(mode) && m.Append? && m.offset == |f|
    requires q < |SlicesOf(mode, m.offset, m.count)| && r <= 3
    ensures var s := SlicesOf(mode, m.offset, m.count)[q];
            && m.offset <= s.start && s.End() <= m.offset + m.count && 3 * q + r <= |AppendSpec(mode, m)|
            && ReplayFile(f, AppendSpec(mode, m)[..3 * q + r])
               == f + DumpBytes(m.file, m.at, s.start - m.offset) + AppendLayer(m, s, r)
  {
    hide PWrite, SlicesOf, JobOps, ReplayFile, DumpBytes, Fill;
    var slices := SlicesOf(mode, m.offset, m.count);
    var job := AppendFrom(m.offset, m.file, m.at);
    SlicesTile(mode, m.offset, m.count);
    CrashInsideJob(f, m.inode, job, slices, m.offset, m.offset + m.count, q, r);
    var s := slices[q];
    var done, top := JobData(job, m.offset, s.start - m.offset), Layer(job, s, r);
    WriteAtEnd(f, done + top);
    assert f + (done + top) == f + done + top;
    assert top == AppendLayer(m, s, r);
  }

  lemma WriteAtEnd(f: File, data: File)
    ensures PWrite(f, |f|, data) == f + data
  {
    if |data| == 0 {
      assert f + data == f;
    } else {
      assert Resize(f, |f|) == f;
    }
  }

  /** What the r-th operation of a growing truncate leaves in its slice. */
  function GrowLayer(s: Slice, r: nat): File {
    match r
    case 0 => []
    case 1 => Fill(Junk, s.count)
    case _ => Fill(Zero, s.count)
  }

  lemma GrowInside(f: File, inode: int, slices: seq<Slice>, end: nat, q: nat, r: nat)
    requires Tiles(slices, |f|, end) && |f| <= end && q < |slices| && r <= 2
    ensures var s, ops := slices[q], JobOps(inode, Grow, slices);
            && |f| <= s.start && s.End() <= end && 2 * q + r <= |ops|
            && ReplayFile(f, ops[..2 * q + r]) == f + Fill(Zero, s.start - |f|) + GrowLayer(s, r)
  {
    hide PWrite, JobOps, ReplayFile, Tiles, Fill;
    CrashInsideJob(f, inode, Grow, slices, |f|, end, q, r);
    var s := slices[q];
    var done, top := Fill(Zero, s.start - |f|), Layer(Grow, s, r);
    assert top == GrowLayer(s, r);
    hide Layer, GrowLayer;
    WriteAtEnd(f, done + top);
    assert f + (done + top) == f + done + top;
  }

  /** After any prefix of a growing truncate the old bytes are intact, finished slices hold zeros,
      and the current slice is missing, random, or zeros. */
  lemma GrowCrashStates(f: File, mode: Splitting, inode: int, finalSize: nat, q: nat, r: nat)
    requires Usable(mode) && |f| < finalSize
    requires q < |SlicesOf(mode, |f|, finalSize - |f|)| && r <= 2
    ensures var s := SlicesOf(mode, |f|, finalSize - |f|)[q];
            var ops := TruncSpec(mode, inode, |f|, finalSize);
            && |f| <= s.start && s.End() <= finalSize && 2 * q + r <= |ops|
            && ReplayFile(f, ops[..2 * q + r]) == f + Fill(Zero, s.start - |f|) + GrowLayer(s, r)
  {
    hide SlicesOf, JobOps, ReplayFile, Fill, GrowLayer;
    SlicesTile(mode, |f|, finalSize - |f|);
    GrowInside(f, inode, SlicesOf(mode, |f|, finalSize - |f|), finalSize, q, r);
  }

  /** The layers are all there is: two for growing, three for appending. */
  lemma LayerCounts(mode: Splitting, inode: int, initialSize: nat, finalSize: nat, m: MicroOp)
    requires Usable(mode) && initialSize <= finalSize && m.Append?
    ensures |TruncSpec(mode, inode, initialSize, finalSize)|
      == 2 * |SlicesOf(mode, initialSize, finalSize - initialSize)|
    ensures |AppendSpec(mode, m)| == 3 * |SlicesOf(mode, m.offset, m.count)|
  {
    JobOpsLength(inode, Grow, SlicesOf(mode, initialSize, finalSize - initialSize));
    JobOpsLength(m.inode, AppendFrom(m.offset, m.file, m.at), SlicesOf(mode, m.offset, m.count));
  }

  /** An overwrite only ever holds a prefix of its data: one disk operation per slice. */
  lemma OverwriteCrashStates(f: File, mode: Splitting, m: MicroOp, q: nat)
    requires Usable(mode) && m.Overwrite? && q < |SlicesOf(mode, m.offset, m.count)|
    ensures var slices := SlicesOf(mode, m.offset, m.count);
            && |DiskOps(mode, m)| == |slices| && m.offset <= slices[q].start <= m.offset + m.count
            && ReplayFile(f, DiskOps(mode, m)[..q])
               == PWrite(f, m.offset, DumpBytes(m.file, m.at, slices[q].start - m.offset))
  {
    hide PWrite, SlicesOf, JobOps, ReplayFile, DumpBytes;
    var slices, job := SlicesOf(mode, m.offset, m.count), OverwriteFrom(m.offset, m.file, m.at);
    SlicesTile(mode, m.offset, m.count);
    JobOpsLength(m.inode, job, slices);
    CrashInsideJob(f, m.inode, job, slices, m.offset, m.offset + m.count, q, 0);
    var done := JobData(job, m.offset, slices[q].start - m.offset);
    assert done + Layer(job, slices[q], 0) == done;
  }

  /** Creating and linking a name, syncing a file or a range, and printing cannot be torn apart. */
  lemma IndivisibleOps(mode: Splitting, m: MicroOp)
    requires Usable(mode) && (m.Creat? || m.Link? || m.SyncFile? || m.SyncRange? || m.Print?)
    ensures |DiskOps(mode, m)| == 1
  {}

  // ----- shrinking -----

  /** The size after the first k cuts. */
  function CutSize(slices: seq<Slice>, end: nat, k: nat): nat
    requires k <= |slices|
  {
    if k == 0 then end else slices[|slices| - k].start
  }

  lemma {:induction false} ShrinkOpAt(inode: int, slices: seq<Slice>, i: nat)
    requires i < |slices|
    ensures |ShrinkOps(inode, slices)| == |slices|
    ensures var s := slices[|slices| - 1 - i];
            ShrinkOps(inode, slices)[i] == Truncate(inode, s.End(), s.start)
    decreases |slices|
  {
    var n := |slices| - 1;
    if n == 0 {
    } else {
      ShrinkOpAt(inode, slices[..n], if i > 0 then i - 1 else 0);
    }
  }

  lemma {:induction false} TilesMeet(slices: seq<Slice>, start: nat, end: nat, i: nat)
    requires Tiles(slices, start, end) && start <= end && i < |slices|
    ensures slices[i].End() == if i + 1 < |slices| then slices[i + 1].start else end
    ensures i == 0 ==> slices[i].start == start
    decreases |slices|
  {
    var n := |slices| - 1;
    if i < n {
      TilesMeet(slices[..n], start, slices[n].start, i);
    } else if n > 0 {
      assert slices[..n] != [];
    } else {
      assert slices[..0] == [];
    }
  }

  /** Consecutive cuts chain: each starts at the size the previous one left, from end to start. */
  lemma ShrinkChains(inode: int, slices: seq<Slice>, start: nat, end: nat, i: nat)
    requires Tiles(slices, start, end) && start <= end && i < |slices|
    ensures |ShrinkOps(inode, slices)| == |slices|
    ensures ShrinkOps(inode, slices)[i] == Truncate(inode, CutSize(slices, end, i), CutSize(slices, end, i + 1))
    ensures CutSize(slices, end, i + 1) < CutSize(slices, end, i)
    ensures CutSize(slices, end, |slices|) == start
  {
    ShrinkOpAt(inode, slices, i);
    TilesMeet(slices, start, end, |slices| - 1 - i);
    TilesMeet(slices, start, end, 0);
    TilesPrefix(slices, start, end, |slices| - 1 - i);
  }

  /** Every prefix of a shrinking truncate leaves a prefix of the old file. */
  lemma {:induction false} ShrinkCrashStates(f: File, inode: int, slices: seq<Slice>, start: nat, k: nat)
    requires Tiles(slices, start, |f|) && start <= |f| && k <= |slices|
    ensures |ShrinkOps(inode, slices)| == |slices| && start <= CutSize(slices, |f|, k) <= |f|
    ensures ReplayFile(f, ShrinkOps(inode, slices)[..k]) == f[..CutSize(slices, |f|, k)]
    decreases k
  {
    hide ShrinkOps;
    if k == 0 {
      if slices != [] {
        ShrinkOpAt(inode, slices, 0);
      } else {
        EmptyShrink(inode, slices);
      }
      assert f[..|f|] == f;
    } else {
      ShrinkCrashStates(f, inode, slices, start, k - 1);
      ShrinkChains(inode, slices, start, |f|, k - 1);
      TilesPrefix(slices, start, |f|, |slices| - k);
      var ops := ShrinkOps(inode, slices);
      assert ops[..k][..k - 1] == ops[..k - 1];
    }
  }

  lemma EmptyShrink(inode: int, slices: seq<Slice>)
    requires slices == []
    ensures ShrinkOps(inode, slices) == []
  {}

  // ----- unlinking -----

  /** The cuts that come before the last name goes. */
  ghost function LastCuts(mode: Splitting, size: nat, hardlinks: nat): seq<Slice>
    requires Usable(mode)
  {
    if hardlinks == 1 then SlicesOf(mode, 0, size) else []
  }

  /** An unlink is its cuts and then the removal of the name. */
  lemma UnlinkIsCutsThenEntry(mode: Splitting, parent: int, name: string, inode: int, size: nat, hardlinks: nat)
    requires Usable(mode)
    ensures UnlinkSpec(mode, parent, name, inode, size, hardlinks) ==
      ShrinkOps(inode, LastCuts(mode, size, hardlinks)) + [DeleteEntry(parent, name, inode)]
  {
    if hardlinks == 1 && size == 0 {
      EmptyShrink(inode, SlicesOf(mode, 0, 0));
    }
  }

  /** Until its last disk operation an unlink keeps every name. The contents only go with the last
      link, from the end of the file to its beginning, and are gone before the name is. */
  lemma UnlinkCrashStates(t: Tree, mode: Splitting, parent: int, name: string, inode: int, hardlinks: nat, k: nat)
    requires Usable(mode)
    requires k < |UnlinkSpec(mode, parent, name, inode, |Content(t, inode)|, hardlinks)|
    ensures var f := Content(t, inode);
            var ops, cuts := UnlinkSpec(mode, parent, name, inode, |f|, hardlinks), LastCuts(mode, |f|, hardlinks);
            && |ops| == |cuts| + 1
            && CutSize(cuts, |f|, k) <= |f|
            && ReplayAll(t, ops[..k]) == SetContent(t, inode, f[..CutSize(cuts, |f|, k)])
            && (k > 0 ==> CutSize(cuts, |f|, k) < CutSize(cuts, |f|, k - 1))
            && (hardlinks == 1 ==> CutSize(cuts, |f|, |cuts|) == 0)
  {
    hide SlicesOf, ShrinkOps, ReplayFile, ReplayAll, SetContent, UnlinkSpec;
    var f := Content(t, inode);
    var cuts := LastCuts(mode, |f|, hardlinks);
    UnlinkIsCutsThenEntry(mode, parent, name, inode, |f|, hardlinks);
    var shrink := ShrinkOps(inode, cuts);
    ShrinkLength(inode, cuts);
    if hardlinks == 1 {
      SlicesTile(mode, 0, |f|);
      ShrinkCrashStates(f, inode, cuts, 0, k);
      NoBytesNoCuts(mode, f, cuts);
      if k > 0 {
        ShrinkChains(inode, cuts, 0, |f|, k - 1);
      } else if cuts != [] {
        ShrinkChains(inode, cuts, 0, |f|, 0);
      }
      ShrinkOpsAreFileOps(inode, cuts);
      ReplayOneFile(t, inode, shrink[..k]);
    } else {
      EmptyShrink(inode, cuts);
      ReplayNothing(t);
      SetSame(t, inode);
      assert f[..|f|] == f && shrink[..k] == [];
    }
    assert (shrink + [DeleteEntry(parent, name, inode)])[..k] == shrink[..k];
  }

  lemma ShrinkLength(inode: int, slices: seq<Slice>)
    ensures |ShrinkOps(inode, slices)| == |slices|
  {
    if slices != [] {
      ShrinkOpAt(inode, slices, 0);
    }
  }

  lemma NoBytesNoCuts(mode: Splitting, f: File, cuts: seq<Slice>)
    requires Usable(mode) && cuts == SlicesOf(mode, 0, |f|)
    ensures cuts == [] ==> |f| == 0
  {
    SlicesTile(mode, 0, |f|);
  }

  /** Every state inside a rename: the target is cut, then its name goes, then the source name goes,
      and only then the target name is there again, for the source file. */
  lemma RenameCrashStates(t: Tree, mode: Splitting, m: MicroOp, k: nat)
    requires Usable(mode) && m.Rename? && k <= |DiskOps(mode, m)|
    ensures var source, dest := (m.sourceParent, m.source), (m.destParent, m.dest);
            var first := if m.destHardlinks >= 1
              then UnlinkSpec(mode, m.destParent, m.dest, m.destInode, m.destSize, m.destHardlinks) else [];
            var n := |first|;
            && |DiskOps(mode, m)| == n + 2
            && (k < n ==> ReplayAll(t, DiskOps(mode, m)[..k]) == ReplayAll(t, first[..k]))
            && ReplayAll(t, DiskOps(mode, m)[..k]).entries ==
               if k < n then t.entries
               else if k == n then (if m.destHardlinks >= 1 then t.entries - {dest} else t.entries)
               else if k == n + 1 then (if m.destHardlinks >= 1 then t.entries - {dest} else t.entries) - {source}
               else (t.entries - {source})[dest := m.sourceInode]
  {
    hide UnlinkSpec, ReplayAll;
    var first := if m.destHardlinks >= 1
      then UnlinkSpec(mode, m.destParent, m.dest, m.destInode, m.destSize, m.destHardlinks) else [];
    var delete := DeleteEntry(m.sourceParent, m.source, m.sourceInode);
    var create := CreateEntry(m.destParent, m.dest, m.sourceInode);
    var ops, n := DiskOps(mode, m), |first|;
    assert ops == first + [delete, create];
    var t1 := ReplayAll(t, first);
    if m.destHardlinks >= 1 {
      UnlinkEffect(t, mode, m.destParent, m.dest, m.destInode, m.destSize, m.destHardlinks);
      if k < n {
        UnlinkKeepsNames(t, mode, m.destParent, m.dest, m.destInode, m.destSize, m.destHardlinks, k);
      }
    } else {
      ReplayNothing(t);
    }
    if k < n {
      assert ops[..k] == first[..k];
    } else if k == n {
      assert ops[..k] == first;
    } else {
      ReplayConcat(t, first, [delete]);
      ReplayOne(t1, delete);
      if k == n + 1 {
        assert ops[..k] == first + [delete];
      } else {
        assert ops[..k] == (first + [delete]) + [create];
        ReplayConcat(t, first + [delete], [create]);
        ReplayOne(Apply(t1, delete), create);
      }
    }
  }

  /** Whatever size was recorded, the name goes last. */
  lemma UnlinkKeepsNames(t: Tree, mode: Splitting, parent: int, name: string, inode: int, size: nat, hardlinks: nat,
      k: nat)
    requires Usable(mode) && k < |UnlinkSpec(mode, parent, name, inode, size, hardlinks)|
    ensures ReplayAll(t, UnlinkSpec(mode, parent, name, inode, size, hardlinks)[..k]).entries == t.entries
  {
    hide UnlinkSpec, ShrinkOps, ReplayAll, ReplayFile, SlicesOf;
    var cuts := LastCuts(mode, size, hardlinks);
    UnlinkIsCutsThenEntry(mode, parent, name, inode, size, hardlinks);
    var shrink := ShrinkOps(inode, cuts);
    ShrinkOpsAreFileOps(inode, cuts);
    ReplayOneFile(t, inode, shrink[..k]);
    assert (shrink + [DeleteEntry(parent, name, inode)])[..k] == shrink[..k];
  }

  // ----- rename -----

  /** rename() leaves two links to the same file alone. */
  function PosixRename(t: Tree, m: MicroOp): Tree
    requires m.Rename?
  {
    if m.destHardlinks >= 1 && m.destInode == m.sourceInode then t else Run(t, m)
  }

  /** The rename was recorded from this very state. */
  predicate RecordedFrom(t: Tree, m: MicroOp)
    requires m.Rename?
  {
    var source, dest := (m.sourceParent, m.source), (m.destParent, m.dest);
    && source in t.entries && t.entries[source] == m.sourceInode
    && (m.destHardlinks >= 1 <==> dest in t.entries)
    && (m.destHardlinks >= 1 ==> t.entries[dest] == m.destInode)
    && (m.destHardlinks == 1 ==> m.destSize == |Content(t, m.destInode)|)
    && (source != dest && dest in t.entries && m.destInode == m.sourceInode ==> m.destHardlinks >= 2)
  }

  /** What a caller can look at: the target is missing or another file, or source and target
      are one name and no byte is at stake. */
  predicate RenameIsSafe(m: MicroOp)
    requires m.Rename?
  {
    || m.destHardlinks == 0
    || m.destInode != m.sourceInode
    || ((m.sourceParent, m.source) == (m.destParent, m.dest) && (m.destHardlinks >= 2 || m.destSize == 0))
  }

  /** The compiled rename agrees with rename() exactly when it is safe. */
  lemma RenameMatchesPosix(t: Tree, mode: Splitting, m: MicroOp)
    requires Usable(mode) && m.Rename? && RecordedFrom(t, m)
    ensures ReplayAll(t, DiskOps(mode, m)) == PosixRename(t, m) <==> RenameIsSafe(m)
  {
    hide DiskOps, ReplayAll;
    CompileOne(t, mode, m);
    if m.destHardlinks >= 1 && m.destInode == m.sourceInode {
      var source, dest := (m.sourceParent, m.source), (m.destParent, m.dest);
      var r := Run(t, m);
      if source != dest {
        assert source !in r.entries;
      } else {
        assert r.entries == t.entries;
        if m.destHardlinks == 1 {
          assert Content(r, m.destInode) == [];
          if m.destSize == 0 {
            SetSame(t, m.destInode);
          }
        }
      }
    }
  }

  /** Renaming one of two links onto the other loses a name that rename() keeps. */
  lemma RenameOntoOwnLink()
    ensures var t := Tree(map[], map[(1, "a") := 7, (1, "b") := 7]);
            var m := Rename(1, "a", 7, 1, "b", 7, 0, 2);
            && RecordedFrom(t, m)
            && PosixRename(t, m) == t
            && (1, "a") !in ReplayAll(t, DiskOps(Count(1), m)).entries
  {
    var t := Tree(map[], map[(1, "a") := 7, (1, "b") := 7]);
    var m := Rename(1, "a", 7, 1, "b", 7, 0, 2);
    CompileOne(t, Count(1), m);
    assert "a" != "b" by { assert "a"[0] != "b"[0]; }
  }
}
