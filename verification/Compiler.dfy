/** defaultfs.get_disk_ops: compiling logical micro operations to disk operations. */
module Compiler {
  import opened Ops
  import opened Slices

  datatype Option<T> = None | Some(value: T)

  datatype MicroOp =
    | Creat(parent: int, name: string, inode: int)
    | Unlink(parent: int, name: string, inode: int, size: nat, hardlinks: nat)
    | Link(destParent: int, dest: string, sourceInode: int)
    | Rename(sourceParent: int, source: string, sourceInode: int,
             destParent: int, dest: string, destInode: int, destSize: nat, destHardlinks: nat)
    | Trunc(inode: int, initialSize: nat, finalSize: nat)
    | Append(inode: int, offset: nat, count: nat, file: string, at: nat)
    | Overwrite(inode: int, offset: nat, count: nat, file: string, at: nat)
    | SyncFile(inode: int, size: nat, call: SyncCall)
    | SyncRange(inode: int, offset: nat, count: nat)
    | SyncEverything(synced: seq<(int, nat)>)
    | Print(text: string)

  // ----- the disk operations of a sequence of slices -----

  /** What the loops do with each slice. Data slices know where the whole data starts. */
  datatype Job = Grow | Cut | AppendFrom(base: nat, file: string, at: nat) | OverwriteFrom(base: nat, file: string,
      at: nat)

  /** Where the data of a slice lies in the dump; slices never start before the data does. */
  function DumpAt(job: Job, start: nat): nat
    requires job.AppendFrom? || job.OverwriteFrom?
  {
    if start >= job.base then job.at + (start - job.base) else job.at
  }

  function DataOp(inode: int, job: Job, s: Slice): DiskOp
    requires job.AppendFrom? || job.OverwriteFrom?
  {
    Write(inode, s.start, s.count, Dump(job.file, DumpAt(job, s.start)))
  }

  /** Growing writes garbage and then zeros; appending writes zeros, garbage and then the data. */
  function SliceOps(inode: int, job: Job, s: Slice): seq<DiskOp>
  {
    match job
    case Grow => [Write(inode, s.start, s.count, Garbage), Write(inode, s.start, s.count, Zeros)]
    case Cut => [Truncate(inode, s.start, s.End())]
    case AppendFrom(_, _, _) =>
      [Write(inode, s.start, s.count, Zeros), Write(inode, s.start, s.count, Garbage), DataOp(inode, job, s)]
    case OverwriteFrom(_, _, _) => [DataOp(inode, job, s)]
  }

  function JobOps(inode: int, job: Job, slices: seq<Slice>): seq<DiskOp>
  {
    if slices == [] then []
    else JobOps(inode, job, slices[..|slices| - 1]) + SliceOps(inode, job, slices[|slices| - 1])
  }

  lemma JobStep(inode: int, job: Job, slices: seq<Slice>, n: nat)
    requires n < |slices|
    ensures JobOps(inode, job, slices[..n + 1]) == JobOps(inode, job, slices[..n]) + SliceOps(inode, job, slices[n])
  {
    assert slices[..n + 1][..n] == slices[..n];
  }

  /** Shrinking: the cuts of the slices from the far end, with their sizes exchanged. */
  function ShrinkOps(inode: int, slices: seq<Slice>): seq<DiskOp> {
    if slices == [] then []
    else
      var s := slices[|slices| - 1];
      [Truncate(inode, s.End(), s.start)] + ShrinkOps(inode, slices[..|slices| - 1])
  }

  function TruncSpec(mode: Splitting, inode: int, initialSize: nat, finalSize: nat): seq<DiskOp>
    requires Usable(mode)
  {
    if initialSize <= finalSize then JobOps(inode, Grow, SlicesOf(mode, initialSize, finalSize - initialSize))
    else ShrinkOps(inode, SlicesOf(mode, finalSize, initialSize - finalSize))
  }

  function AppendSpec(mode: Splitting, m: MicroOp): seq<DiskOp>
    requires Usable(mode) && m.Append?
  {
    JobOps(m.inode, AppendFrom(m.offset, m.file, m.at), SlicesOf(mode, m.offset, m.count))
  }

  function UnlinkSpec(mode: Splitting, parent: int, name: string, inode: int, size: nat, hardlinks: nat): seq<DiskOp>
    requires Usable(mode)
  {
    (if hardlinks == 1 then TruncSpec(mode, inode, size, 0) else []) + [DeleteEntry(parent, name, inode)]
  }

  function SyncAllOps(synced: seq<(int, nat)>): (r: seq<DiskOp>)
    ensures |r| == |synced|
    ensures forall i :: 0 <= i < |r| ==> r[i] == Sync(synced[i].0, 0, synced[i].1, GlobalSync)
  {
    seq(|synced|, i requires 0 <= i < |synced| => Sync(synced[i].0, 0, synced[i].1, GlobalSync))
  }

  function DiskOps(mode: Splitting, m: MicroOp): seq<DiskOp>
    requires Usable(mode)
  {
    match m
    case Creat(parent, name, inode) => [CreateEntry(parent, name, inode)]
    case Unlink(parent, name, inode, size, hardlinks) => UnlinkSpec(mode, parent, name, inode, size, hardlinks)
    case Link(destParent, dest, sourceInode) => [CreateEntry(destParent, dest, sourceInode)]
    case Rename(sourceParent, source, sourceInode, destParent, dest, destInode, destSize, destHardlinks) =>
      (if destHardlinks >= 1 then UnlinkSpec(mode, destParent, dest, destInode, destSize, destHardlinks) else [])
      + [DeleteEntry(sourceParent, source, sourceInode), CreateEntry(destParent, dest, sourceInode)]
    case Trunc(inode, initialSize, finalSize) => TruncSpec(mode, inode, initialSize, finalSize)
    case Append(_, _, _, _, _) => AppendSpec(mode, m)
    case Overwrite(inode, offset, count, file, at) =>
      JobOps(inode, OverwriteFrom(offset, file, at), SlicesOf(mode, offset, count))
    case SyncFile(inode, size, call) => [Sync(inode, 0, size, call)]
    case SyncRange(inode, offset, count) => [Sync(inode, offset, count, RangeSync)]
    case SyncEverything(synced) => SyncAllOps(synced)
    case Print(text) => [Stdout(text)]
  }

  // ----- the loops -----

  /** The slicing loop that truncates, appends and overwrites share. */
  method EmitSlices(mode: Splitting, inode: int, job: Job, first: nat, total: nat) returns (ops: seq<DiskOp>)
    requires Usable(mode) && total > 0
    requires job.AppendFrom? || job.OverwriteFrom? ==> job.base == first
    ensures ops == JobOps(inode, job, SlicesOf(mode, first, total))
  {
    ops := [];
    var start: nat, remaining: nat := first, total;
    var per := PerSlice(mode, total);
    ghost var slices := SlicesOf(mode, first, total);
    ghost var n := 0;
    var end := 0;
    while remaining > 0
      invariant n <= |slices| && slices[n..] == SlicesFrom(mode, per, start, remaining)
      invariant start + remaining == first + total
      invariant remaining < total ==> end == start
      invariant ops == JobOps(inode, job, slices[..n])
    {
      var count := NextCount(mode, per, start, remaining);
      NextSlice(mode, per, start, remaining, slices, n);
      JobStep(inode, job, slices, n);
      end := start + count;
      ops := ops + SliceOps(inode, job, Slice(start, count));
      n := n + 1;
      remaining := remaining - count;
      start := end;
    }
    assert end == first + total;
    assert slices[..n] == slices;
  }

  /** trunc_disk_ops, for truncates and (with append) for appends. */
  method TruncDiskOps(mode: Splitting, inode: int, initialSize: nat, finalSize: nat, append: Option<MicroOp>)
    returns (ops: seq<DiskOp>)
    requires Usable(mode)
    requires append.Some? ==>
      && append.value.Append? && append.value.inode == inode && append.value.offset == initialSize
      && initialSize + append.value.count == finalSize
    ensures ops == if append.Some? then AppendSpec(mode, append.value)
      else TruncSpec(mode, inode, initialSize, finalSize)
  {
    ops := [];
    if initialSize == finalSize {
      return;
    }
    var low: nat, high: nat, invert := initialSize, finalSize, false;
    if initialSize > finalSize {
      low, high, invert := finalSize, initialSize, true;
    }
    var job := if invert then Cut else if append.Some? then AppendFrom(low, append.value.file, append.value.at)
      else Grow;
    ops := EmitSlices(mode, inode, job, low, high - low);
    if invert {
      ops := ReverseAndSwap(ops, inode, SlicesOf(mode, low, high - low));
    }
  }

  lemma {:induction false} CutAt(inode: int, slices: seq<Slice>, i: nat)
    requires i < |slices|
    ensures |JobOps(inode, Cut, slices)| == |slices|
    ensures JobOps(inode, Cut, slices)[i] == Truncate(inode, slices[i].start, slices[i].End())
    decreases |slices|
  {
    var n := |slices| - 1;
    if n == 0 {
    } else {
      CutAt(inode, slices[..n], if i < n then i else 0);
    }
  }

  /** Reverses the list and exchanges the sizes of every truncate. */
  method ReverseAndSwap(raw: seq<DiskOp>, ghost inode: int, ghost slices: seq<Slice>) returns (ops: seq<DiskOp>)
    requires slices != [] && raw == JobOps(inode, Cut, slices)
    ensures ops == ShrinkOps(inode, slices)
  {
    ops := [];
    CutAt(inode, slices, 0);
    var i := |raw|;
    assert slices[..|raw|] == slices;
    while i > 0
      invariant 0 <= i <= |raw| == |slices|
      invariant ops + ShrinkOps(inode, slices[..i]) == ShrinkOps(inode, slices)
    {
      i := i - 1;
      CutAt(inode, slices, i);
      assert slices[..i + 1][..i] == slices[..i];
      var op := raw[i];
      ops := ops + [op.(initialSize := op.finalSize, finalSize := op.initialSize)];
    }
  }

  method UnlinkDiskOps(mode: Splitting, parent: int, inode: int, name: string, size: nat, hardlinks: nat)
    returns (ops: seq<DiskOp>)
    requires Usable(mode)
    ensures ops == UnlinkSpec(mode, parent, name, inode, size, hardlinks)
  {
    ops := [];
    if hardlinks == 1 {
      ops := TruncDiskOps(mode, inode, size, 0, None);
    }
    ops := ops + [DeleteEntry(parent, name, inode)];
  }

  method GetDiskOps(mode: Splitting, m: MicroOp) returns (ops: seq<DiskOp>)
    requires Usable(mode) && (m.Overwrite? ==> m.count > 0)
    ensures ops == DiskOps(mode, m)
  {
    match m {
      case Creat(parent, name, inode) =>
        ops := [CreateEntry(parent, name, inode)];
      case Unlink(parent, name, inode, size, hardlinks) =>
        ops := UnlinkDiskOps(mode, parent, inode, name, size, hardlinks);
      case Link(destParent, dest, sourceInode) =>
        ops := [CreateEntry(destParent, dest, sourceInode)];
      case Rename(sourceParent, source, sourceInode, destParent, dest, destInode, destSize, destHardlinks) =>
        ops := [];
        if destHardlinks >= 1 {
          ops := UnlinkDiskOps(mode, destParent, destInode, dest, destSize, destHardlinks);
        }
        var unlinked := UnlinkDiskOps(mode, sourceParent, sourceInode, source, 0, 2);
        ops := ops + unlinked + [CreateEntry(destParent, dest, sourceInode)];
      case Trunc(inode, initialSize, finalSize) =>
        ops := TruncDiskOps(mode, inode, initialSize, finalSize, None);
      case Append(inode, offset, count, _, _) =>
        ops := TruncDiskOps(mode, inode, offset, offset + count, Some(m));
      case Overwrite(inode, offset, count, file, at) =>
        ops := EmitSlices(mode, inode, OverwriteFrom(offset, file, at), offset, count);
      case SyncFile(inode, size, call) =>
        ops := [Sync(inode, 0, size, call)];
      case SyncRange(inode, offset, count) =>
        ops := [Sync(inode, offset, count, RangeSync)];
      case SyncEverything(synced) =>
        ops := [];
        for i := 0 to |synced|
          invariant ops == SyncAllOps(synced)[..i]
        {
          ops := ops + [Sync(synced[i].0, 0, synced[i].1, GlobalSync)];
        }
      case Print(text) =>
        ops := [Stdout(text)];
    }
  }
}
