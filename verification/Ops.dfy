/** The disk operations that a file system model hands to the crash-state
    explorer, and the two notions of "this sync flushes that operation" that the
    explorer combines. */
module Ops {

  /** Where the bytes of a disk write come from (special_write, dump_file, dump_offset). */
  datatype Data = Zeros | Garbage | Dump(file: string, at: nat)

  /** The system call behind a sync disk op; only the assertions of get_deps look at it. */
  datatype SyncCall = Fsync | Fdatasync | RangeSync | GlobalSync

  datatype DiskOp =
    | Write(inode: int, offset: nat, count: nat, data: Data)
    | Truncate(inode: int, initialSize: nat, finalSize: nat)
    | CreateEntry(parent: int, entry: string, inode: int)
    | DeleteEntry(parent: int, entry: string, inode: int)
    | Sync(inode: int, offset: nat, count: nat, call: SyncCall)
    | Stdout(text: string)

  predicate IsEntryOp(op: DiskOp) { op.CreateEntry? || op.DeleteEntry? }

  predicate IsDirtying(op: DiskOp) { op.Write? || op.Truncate? || IsEntryOp(op) }

  /** The inode whose sync can flush the operation: directory entries live in the parent. */
  function Home(op: DiskOp): int
    requires IsDirtying(op)
  {
    if IsEntryOp(op) then op.parent else op.inode
  }

  /** The test suite's reading of a sync range: the whole write, or the final size,
      has to lie inside the closed range. */
  predicate InSyncRange(op: DiskOp, offset: nat, count: nat) {
    match op
    case Write(_, o, c, _) => offset <= o && o + c <= offset + count
    case Truncate(_, _, finalSize) => offset <= finalSize <= offset + count
    case CreateEntry(_, _, _) => true
    case DeleteEntry(_, _, _) => true
    case _ => false
  }

  predicate SuiteFlushes(s: DiskOp, d: DiskOp) {
    s.Sync? && IsDirtying(d) && Home(d) == s.inode && InSyncRange(d, s.offset, s.count)
  }

  /** The default file system's reading: a write counts as soon as it starts inside
      the closed range, a truncate always. */
  predicate FsFlushes(s: DiskOp, d: DiskOp) {
    && s.Sync?
    && match d
       case Write(inode, o, _, _) => inode == s.inode && s.offset <= o <= s.offset + s.count
       case Truncate(inode, _, _) => inode == s.inode
       case CreateEntry(parent, _, _) => parent == s.inode
       case DeleteEntry(parent, _, _) => parent == s.inode
       case _ => false
  }

  /** Stdout operations are disguised as writes to inode -1 while the suite is built. */
  function AsSuiteOp(op: DiskOp): DiskOp {
    if op.Stdout? then Write(-1, 0, 1, Zeros) else op
  }

  function AsSuiteOps(ops: seq<DiskOp>): (r: seq<DiskOp>)
    ensures |r| == |ops|
    ensures forall i :: 0 <= i < |ops| ==> r[i] == AsSuiteOp(ops[i])
  {
    seq(|ops|, i requires 0 <= i < |ops| => AsSuiteOp(ops[i]))
  }

  /** What real traces guarantee: inode numbers are non-negative. */
  predicate RealInodes(ops: seq<DiskOp>) {
    forall i :: 0 <= i < |ops| && ops[i].Sync? ==> ops[i].inode >= 0
  }
}
