/** The write branch of the system-call parser, end to end: splitting a write() into
    overwrite, gap and append, compiling these and replaying them is one pwrite(). */
module WritePath {
  import opened Files
  import opened Replay
  import opened Slices
  import opened Compiler
  import opened CompilerProof

  /** How much of the write falls inside a file of the given size. */
  function Overlap(size: nat, pos: nat, count: nat): (o: nat)
    ensures o <= count
  {
    if pos >= size then 0 else if pos + count < size then count else size - pos
  }

  function SyncIf(osync: bool, inode: int, pos: nat, count: nat): seq<MicroOp> {
    if osync then [SyncRange(inode, pos, count)] else []
  }

  function OverwritePart(inode: int, size: nat, pos: nat, count: nat, file: string, at: nat,
      osync: bool): seq<MicroOp> {
    if pos < size then
      [Overwrite(inode, pos, Overlap(size, pos, count), file, at)]
        + SyncIf(osync, inode, pos, Overlap(size, pos, count))
    else []
  }

  function GapPart(inode: int, size: nat, pos: nat): seq<MicroOp> {
    if pos > size then [Trunc(inode, size, pos)] else []
  }

  function AppendPart(inode: int, size: nat, pos: nat, count: nat, file: string, at: nat, osync: bool): seq<MicroOp> {
    var o := Overlap(size, pos, count);
    if pos + count > Max(size, pos + o) then
      [Append(inode, pos + o, count - o, file, at + o)] + SyncIf(osync, inode, pos + o, count - o)
    else []
  }

  /** The micro operations of write(fd, buf, count) at pos when the parser believes in the given size. */
  function WriteOps(inode: int, size: nat, pos: nat, count: nat, file: string, at: nat, osync: bool): seq<MicroOp> {
    OverwritePart(inode, size, pos, count, file, at, osync) + GapPart(inode, size, pos)
    + AppendPart(inode, size, pos, count, file, at, osync)
  }

  /** The branch as the parser runs it: pos, count, dump offset and size change on the way.
      The scratch file is first truncated to its old size and then to its new one. */
  method WriteBranch(inode: int, size0: nat, pos0: nat, count0: nat, file: string, at0: nat, osync: bool)
    returns (ops: seq<MicroOp>, pos: nat, scratchSize: nat)
    requires count0 > 0
    ensures ops == WriteOps(inode, size0, pos0, count0, file, at0, osync)
    ensures pos == pos0 + count0
    ensures scratchSize == Max(size0, pos0 + count0)
  {
    var overwrites, gap, appends := [], [], [];
    var size: nat := size0;
    scratchSize := size0;
    var count: nat, at: nat := count0, at0;
    pos := pos0;
    var overwriteSize := 0;
    if pos < size {
      if pos + count < size {
        overwriteSize := count;
      } else {
        overwriteSize := size - pos;
      }
      assert overwriteSize > 0;
      overwrites := [Overwrite(inode, pos, overwriteSize, file, at)];
      if osync {
        overwrites := overwrites + [SyncRange(inode, pos, overwriteSize)];
      }
    }
    assert overwriteSize == Overlap(size0, pos0, count0);
    assert overwrites == OverwritePart(inode, size0, pos0, count0, file, at0, osync);
    pos := pos + overwriteSize;
    count := count - overwriteSize;
    at := at + overwriteSize;
    if pos > size {
      gap := [Trunc(inode, size, pos)];
      scratchSize := size;
      size := pos;
    }
    assert gap == GapPart(inode, size0, pos0);
    if pos + count > size {
      appends := [Append(inode, pos, count, file, at)];
      scratchSize := pos + count;
      if osync {
        appends := appends + [SyncRange(inode, pos, count)];
      }
    }
    assert appends == AppendPart(inode, size0, pos0, count0, file, at0, osync);
    pos := pos + count;
    ops := overwrites + gap + appends;
  }

  // ----- end to end -----

  /** What the compiled write leaves in a file, whatever the size the parser believed in. */
  function WriteResult(f: File, size: nat, pos: nat, data: File): File {
    PWrite(PWrite(f, size, Fill(Zero, if pos > size then pos - size else 0)), pos, data)
  }

  lemma ReplayTwo(t: Tree, mode: Splitting, m: MicroOp, rest: seq<MicroOp>)
    requires Usable(mode)
    ensures ReplayAll(t, CompileAll(mode, [m] + rest))
      == ReplayAll(ReplayAll(t, DiskOps(mode, m)), CompileAll(mode, rest))
  {
    hide DiskOps, ReplayAll;
    CompileConcat(mode, [m], rest);
    CompileSingle(mode, m);
    ReplayConcat(t, DiskOps(mode, m), CompileAll(mode, rest));
  }

  lemma CompileSingle(mode: Splitting, m: MicroOp)
    requires Usable(mode)
    ensures CompileAll(mode, [m]) == DiskOps(mode, m)
  {
    hide DiskOps;
    assert CompileAll(mode, [m]) == CompileAll(mode, [m][..0]) + DiskOps(mode, m);
  }

  lemma SyncIfIsNothing(t: Tree, mode: Splitting, osync: bool, inode: int, pos: nat, count: nat)
    requires Usable(mode)
    ensures ReplayAll(t, CompileAll(mode, SyncIf(osync, inode, pos, count))) == t
  {
    hide CompileAll, ReplayAll, JobOps, ShrinkOps, UnlinkSpec, AppendSpec, TruncSpec, SyncAllOps;
    if osync {
      var m := SyncRange(inode, pos, count);
      CompileSingle(mode, m);
      ReplayOne(t, DiskOps(mode, m)[0]);
    } else {
      NothingToCompile(t, mode);
    }
  }

  lemma {:induction false} CompileConcat(mode: Splitting, a: seq<MicroOp>, b: seq<MicroOp>)
    requires Usable(mode)
    ensures CompileAll(mode, a + b) == CompileAll(mode, a) + CompileAll(mode, b)
    decreases |b|
  {
    hide DiskOps;
    if b == [] {
      assert a + b == a;
    } else {
      var n := |b| - 1;
      CompileConcat(mode, a, b[..n]);
      assert (a + b)[..|a| + n] == a + b[..n];
      assert (CompileAll(mode, a) + CompileAll(mode, b[..n])) + DiskOps(mode, b[n])
        == CompileAll(mode, a) + (CompileAll(mode, b[..n]) + DiskOps(mode, b[n]));
    }
  }

  function WriteTo(t: Tree, inode: int, offset: nat, data: File): Tree {
    SetContent(t, inode, PWrite(Content(t, inode), offset, data))
  }

  lemma WriteNone(t: Tree, inode: int, offset: nat, data: File)
    requires |data| == 0
    ensures WriteTo(t, inode, offset, data) == t
  {
    WriteNothing(Content(t, inode), offset, data);
    SetSame(t, inode);
  }

  lemma OverwritePartEffect(t: Tree, mode: Splitting, inode: int, size: nat, pos: nat, count: nat, file: string,
      at: nat, osync: bool)
    requires Usable(mode)
    ensures ReplayAll(t, CompileAll(mode, OverwritePart(inode, size, pos, count, file, at, osync)))
      == WriteTo(t, inode, pos, DumpBytes(file, at, Overlap(size, pos, count)))
  {
    hide ReplayAll, CompileAll, DiskOps, SetContent, PWrite;
    var o := Overlap(size, pos, count);
    if pos < size {
      var m := Overwrite(inode, pos, o, file, at);
      ReplayTwo(t, mode, m, SyncIf(osync, inode, pos, o));
      CompileOne(t, mode, m);
      SyncIfIsNothing(Run(t, m), mode, osync, inode, pos, o);
    } else {
      NothingToCompile(t, mode);
      WriteNone(t, inode, pos, DumpBytes(file, at, o));
    }
  }

  lemma NothingToCompile(t: Tree, mode: Splitting)
    requires Usable(mode)
    ensures ReplayAll(t, CompileAll(mode, [])) == t
  {}

  lemma AppendPartEffect(t: Tree, mode: Splitting, inode: int, size: nat, pos: nat, count: nat, file: string,
      at: nat, osync: bool)
    requires Usable(mode)
    ensures var o := Overlap(size, pos, count);
            ReplayAll(t, CompileAll(mode, AppendPart(inode, size, pos, count, file, at, osync)))
            == WriteTo(t, inode, pos + o, DumpBytes(file, at + o, count - o))
  {
    hide ReplayAll, CompileAll, DiskOps, SetContent, PWrite;
    var o := Overlap(size, pos, count);
    if pos + count > Max(size, pos + o) {
      var m := Append(inode, pos + o, count - o, file, at + o);
      ReplayTwo(t, mode, m, SyncIf(osync, inode, pos + o, count - o));
      CompileOne(t, mode, m);
      SyncIfIsNothing(Run(t, m), mode, osync, inode, pos + o, count - o);
    } else {
      NothingToCompile(t, mode);
      WriteNone(t, inode, pos + o, DumpBytes(file, at + o, count - o));
    }
  }

  /** The gap is written as zeros from the believed size on, whatever is there. */
  lemma GapPartEffect(t: Tree, mode: Splitting, inode: int, size: nat, pos: nat)
    requires Usable(mode)
    ensures ReplayAll(t, CompileAll(mode, GapPart(inode, size, pos)))
      == WriteTo(t, inode, size, Fill(Zero, if pos > size then pos - size else 0))
  {
    hide ReplayAll, CompileAll, DiskOps, SetContent, PWrite;
    if pos > size {
      CompileSingle(mode, Trunc(inode, size, pos));
      CompileMeaning(t, mode, Trunc(inode, size, pos));
    } else {
      NothingToCompile(t, mode);
      WriteNone(t, inode, size, Fill(Zero, 0));
    }
  }

  lemma WriteToTwice(t: Tree, inode: int, a: nat, x: File, b: nat, y: File)
    ensures WriteTo(WriteTo(t, inode, a, x), inode, b, y)
      == SetContent(t, inode, PWrite(PWrite(Content(t, inode), a, x), b, y))
  {
    hide PWrite;
    var f := PWrite(Content(t, inode), a, x);
    SetTwice(t, inode, f, PWrite(f, b, y));
  }

  lemma ThreeParts(t: Tree, mode: Splitting, p1: seq<MicroOp>, p2: seq<MicroOp>, p3: seq<MicroOp>)
    requires Usable(mode)
    ensures ReplayAll(t, CompileAll(mode, p1 + p2 + p3)) ==
      ReplayAll(ReplayAll(ReplayAll(t, CompileAll(mode, p1)), CompileAll(mode, p2)), CompileAll(mode, p3))
  {
    hide ReplayAll, CompileAll;
    CompileConcat(mode, p1 + p2, p3);
    CompileConcat(mode, p1, p2);
    ReplayConcat(t, CompileAll(mode, p1) + CompileAll(mode, p2), CompileAll(mode, p3));
    ReplayConcat(t, CompileAll(mode, p1), CompileAll(mode, p2));
  }

  /** Overwrite, gap and append in a row; never all three of them write something. */
  lemma ThreeWrites(t: Tree, inode: int, size: nat, pos: nat, count: nat, file: string, at: nat)
    ensures var o, gap := Overlap(size, pos, count), Fill(Zero, if pos > size then pos - size else 0);
            WriteTo(WriteTo(WriteTo(t, inode, pos, DumpBytes(file, at, o)), inode, size, gap), inode, pos + o,
              DumpBytes(file, at + o, count - o))
            == SetContent(t, inode, WriteResult(Content(t, inode), size, pos, DumpBytes(file, at, count)))
  {
    hide SetContent, PWrite, Fill, DumpBytes, WriteTo;
    var o, gap := Overlap(size, pos, count), Fill(Zero, if pos > size then pos - size else 0);
    var a, b := DumpBytes(file, at, o), DumpBytes(file, at + o, count - o);
    var f := Content(t, inode);
    if pos < size {
      WriteNone(WriteTo(t, inode, pos, a), inode, size, gap);
      WriteToTwice(t, inode, pos, a, pos + o, b);
      AdjacentWrites(f, pos, a, b);
      DumpSplit(file, at, o, count - o);
      WriteNothing(f, size, gap);
    } else {
      WriteNone(t, inode, pos, a);
      WriteToTwice(t, inode, size, gap, pos, b);
    }
  }

  /** The whole write, for any size the parser may believe in. */
  lemma WriteEffect(t: Tree, mode: Splitting, inode: int, size: nat, pos: nat, count: nat, file: string, at: nat,
      osync: bool)
    requires Usable(mode)
    ensures ReplayAll(t, CompileAll(mode, WriteOps(inode, size, pos, count, file, at, osync)))
      == SetContent(t, inode, WriteResult(Content(t, inode), size, pos, DumpBytes(file, at, count)))
  {
    hide ReplayAll, CompileAll, SetContent, WriteResult, WriteTo, OverwritePart, GapPart, AppendPart, Fill,
      DumpBytes, Overlap;
    var o, gap := Overlap(size, pos, count), Fill(Zero, if pos > size then pos - size else 0);
    ThreeParts(t, mode, OverwritePart(inode, size, pos, count, file, at, osync), GapPart(inode, size, pos),
      AppendPart(inode, size, pos, count, file, at, osync));
    OverwritePartEffect(t, mode, inode, size, pos, count, file, at, osync);
    var t1 := WriteTo(t, inode, pos, DumpBytes(file, at, o));
    GapPartEffect(t1, mode, inode, size, pos);
    AppendPartEffect(WriteTo(t1, inode, size, gap), mode, inode, size, pos, count, file, at, osync);
    ThreeWrites(t, inode, size, pos, count, file, at);
  }

  /** Zeros before the write are harmless exactly when nothing else was there. */
  lemma ZerosBeforeWrite(f: File, size: nat, pos: nat, data: File)
    requires |data| > 0
    ensures WriteResult(f, size, pos, data) == PWrite(f, pos, data) <==> pos <= size || AllZero(f, size, pos)
  {
    if pos > size {
      var g := PWrite(f, size, Fill(Zero, pos - size));
      var left, right := PWrite(g, pos, data), PWrite(f, pos, data);
      assert |left| == |right|;
      forall k: nat | k < |left|
        ensures left[k] == (if size <= k < pos then Zero else right[k])
        ensures k < |f| && k < pos ==> right[k] == f[k]
        ensures |f| <= k < pos ==> right[k] == Zero
      {
        PWriteAt(g, pos, data, k);
        PWriteAt(f, pos, data, k);
        if k < |g| {
          PWriteAt(f, size, Fill(Zero, pos - size), k);
        }
      }
      if AllZero(f, size, pos) {
        assert left == right;
      } else {
        var k :| size <= k < pos && k < |f| && f[k] != Zero;
        assert left[k] != right[k];
      }
    } else {
      WriteNothing(f, size, Fill(Zero, 0));
    }
  }

  /** write() through a size that may be stale: right exactly when the write starts within the
      believed size or the bytes it takes for a gap already were zeros. */
  lemma WriteMatchesPosix(t: Tree, mode: Splitting, inode: int, size: nat, pos: nat, count: nat, file: string,
      at: nat, osync: bool)
    requires Usable(mode) && count > 0
    ensures ReplayAll(t, CompileAll(mode, WriteOps(inode, size, pos, count, file, at, osync)))
        == SetContent(t, inode, PWrite(Content(t, inode), pos, DumpBytes(file, at, count)))
      <==> pos <= size || AllZero(Content(t, inode), size, pos)
  {
    hide ReplayAll, CompileAll, WriteOps, PWrite, DumpBytes, WriteResult;
    var f, data := Content(t, inode), DumpBytes(file, at, count);
    WriteEffect(t, mode, inode, size, pos, count, file, at, osync);
    ZerosBeforeWrite(f, size, pos, data);
    assert Content(SetContent(t, inode, WriteResult(f, size, pos, data)), inode) == WriteResult(f, size, pos, data);
    assert Content(SetContent(t, inode, PWrite(f, pos, data)), inode) == PWrite(f, pos, data);
  }

  /** With the true size every write is exactly pwrite(), in every split mode. */
  lemma EndToEndWrite(t: Tree, mode: Splitting, inode: int, pos: nat, count: nat, file: string, at: nat, osync: bool)
    requires Usable(mode) && count > 0
    ensures var f := Content(t, inode);
            ReplayAll(t, CompileAll(mode, WriteOps(inode, |f|, pos, count, file, at, osync)))
            == SetContent(t, inode, PWrite(f, pos, DumpBytes(file, at, count)))
  {
    WriteMatchesPosix(t, mode, inode, |Content(t, inode)|, pos, count, file, at, osync);
  }
}
