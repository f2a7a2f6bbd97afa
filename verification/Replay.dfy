/** replay_disk_ops: the effect of each disk operation on a directory tree of regular files,
    the block-wise special writes, and the replay that continues from a cached tree. */
module Replay {
  import opened Ops
  import opened Files

  /** Contents by inode. Files without any byte are not recorded, so trees with the same
      contents and entries are equal. */
  type Contents = m: map<int, File> | forall i :: i in m ==> |m[i]| > 0

  /** The contents, and the directory entries by (parent inode, name). */
  datatype Tree = Tree(files: Contents, entries: map<(int, string), int>)

  /** get_inode_file creates missing files empty. */
  function Content(t: Tree, inode: int): File {
    if inode in t.files then t.files[inode] else []
  }

  function SetContent(t: Tree, inode: int, f: File): (r: Tree)
    ensures r.entries == t.entries && Content(r, inode) == f
    ensures forall i :: i != inode ==> Content(r, i) == Content(t, i)
  {
    t.(files := if |f| == 0 then t.files - {inode} else t.files[inode := f])
  }

  lemma SetTwice(t: Tree, inode: int, f: File, g: File)
    ensures SetContent(SetContent(t, inode, f), inode, g) == SetContent(t, inode, g)
  {}

  lemma SetSame(t: Tree, inode: int)
    ensures SetContent(t, inode, Content(t, inode)) == t
  {}

  // ----- one file -----

  predicate IsFileOp(op: DiskOp, inode: int) {
    (op.Write? || op.Truncate?) && op.inode == inode
  }

  function ApplyToFile(f: File, op: DiskOp): File {
    match op
    case Truncate(_, _, finalSize) => Resize(f, finalSize)
    case Write(_, offset, count, data) => PWrite(f, offset, Payload(data, count))
    case _ => f
  }

  function ReplayFile(f: File, ops: seq<DiskOp>): File {
    if |ops| == 0 then f
    else ApplyToFile(ReplayFile(f, ops[..|ops| - 1]), ops[|ops| - 1])
  }

  lemma {:induction false} ReplayFileConcat(f: File, a: seq<DiskOp>, b: seq<DiskOp>)
    ensures ReplayFile(f, a + b) == ReplayFile(ReplayFile(f, a), b)
    decreases |b|
  {
    hide ApplyToFile;
    if |b| == 0 {
      assert a + b == a;
    } else {
      var last := |b| - 1;
      ReplayFileConcat(f, a, b[..last]);
      assert (a + b)[..|a + b| - 1] == a + b[..last];
    }
  }

  // ----- the tree -----

  function Apply(t: Tree, op: DiskOp): Tree {
    match op
    case CreateEntry(parent, entry, inode) => t.(entries := t.entries[(parent, entry) := inode])
    case DeleteEntry(parent, entry, _) => t.(entries := t.entries - {(parent, entry)})
    case Truncate(inode, _, _) => SetContent(t, inode, ApplyToFile(Content(t, inode), op))
    case Write(inode, _, _, _) => SetContent(t, inode, ApplyToFile(Content(t, inode), op))
    case Sync(_, _, _, _) => t
    case Stdout(_) => t
  }

  function ReplayAll(t: Tree, ops: seq<DiskOp>): Tree {
    if ops == [] then t
    else Apply(ReplayAll(t, ops[..|ops| - 1]), ops[|ops| - 1])
  }

  function PrintedBy(op: DiskOp): string {
    if op.Stdout? then op.text else ""
  }

  function Printed(ops: seq<DiskOp>): string {
    if ops == [] then "" else Printed(ops[..|ops| - 1]) + PrintedBy(ops[|ops| - 1])
  }

  lemma {:induction false} ReplayConcat(t: Tree, a: seq<DiskOp>, b: seq<DiskOp>)
    ensures ReplayAll(t, a + b) == ReplayAll(ReplayAll(t, a), b)
    decreases |b|
  {
    hide Apply;
    if b == [] {
      assert a + b == a;
    } else {
      var last := |b| - 1;
      ReplayConcat(t, a, b[..last]);
      assert (a + b)[..|a + b| - 1] == a + b[..last];
    }
  }

  /** Operations on one file only change that file. */
  lemma {:induction false} ReplayOneFile(t: Tree, inode: int, ops: seq<DiskOp>)
    requires forall i :: 0 <= i < |ops| ==> IsFileOp(ops[i], inode)
    ensures ReplayAll(t, ops) == SetContent(t, inode, ReplayFile(Content(t, inode), ops))
    decreases |ops|
  {
    hide SetContent, ApplyToFile;
    if |ops| == 0 {
      SetSame(t, inode);
    } else {
      var last := |ops| - 1;
      ReplayOneFile(t, inode, ops[..last]);
      var f := ReplayFile(Content(t, inode), ops[..last]);
      SetTwice(t, inode, f, ApplyToFile(f, ops[last]));
    }
  }

  lemma PrintedNothing()
    ensures Printed([]) == ""
  {}

  lemma TextConcat(a: string, b: string, c: string)
    ensures (a + b) + c == a + (b + c)
  {}

  lemma PrintedLast(ops: seq<DiskOp>)
    requires ops != []
    ensures Printed(ops) == Printed(ops[..|ops| - 1]) + PrintedBy(ops[|ops| - 1])
  {}

  lemma {:induction false} PrintedConcat(a: seq<DiskOp>, b: seq<DiskOp>)
    ensures Printed(a + b) == Printed(a) + Printed(b)
    decreases |b|
  {
    hide Printed, PrintedBy;
    if b == [] {
      assert a + b == a;
      PrintedNothing();
    } else {
      var last := |b| - 1;
      PrintedConcat(a, b[..last]);
      PrintedLast(a + b);
      PrintedLast(b);
      assert (a + b)[..|a + b| - 1] == a + b[..last];
      TextConcat(Printed(a), Printed(b[..last]), PrintedBy(b[last]));
    }
  }

  // ----- special writes in blocks -----

  const KB := 1024

  function CeilDiv(a: nat, b: nat): nat
    requires b > 0
  {
    (a + b - 1) / b
  }

  function AtLeastZero(n: int): nat { if n < 0 then 0 else n }

  lemma BlockBounds(offset: nat, block: nat)
    requires block > 0
    ensures offset <= CeilDiv(offset, block) * block < offset + block
  {
    var q := CeilDiv(offset, block);
    assert offset + block - 1 == q * block + (offset + block - 1) % block;
  }

  lemma FloorBounds(n: nat, block: nat)
    requires block > 0
    ensures (n / block) * block <= n < (n / block) * block + block
  {
    assert n == (n / block) * block + n % block;
  }

  lemma ThreePieces(f: File, offset: nat, c: Cell, pre: nat, mid: nat, post: nat)
    ensures PWrite(PWrite(PWrite(f, offset, Fill(c, pre)), offset + pre, Fill(c, mid)), offset + pre + mid,
      Fill(c, post))
      == PWrite(f, offset, Fill(c, pre + mid + post))
  {
    hide PWrite, Fill;
    AdjacentWrites(f, offset, Fill(c, pre), Fill(c, mid));
    FillSplit(c, pre, mid);
    AdjacentWrites(f, offset, Fill(c, pre + mid), Fill(c, post));
    FillSplit(c, pre + mid, post);
  }

  /** Byte-wise head, whole blocks, byte-wise tail. */
  datatype BlockPlan = BlockPlan(block: nat, head: nat, blocksOffset: nat, blocks: nat, tailOffset: nat, tail: nat)

  /** The three regions partition [offset, offset + count) in this order, and blocks are aligned. */
  ghost predicate Partitions(p: BlockPlan, offset: nat, count: nat) {
    && p.block == (if count > 4 * KB * KB then KB * KB else 4 * KB)
    && p.head + p.blocks * p.block + p.tail == count
    && p.head < p.block && p.tail < p.block <= count
    && p.blocksOffset * p.block == offset + p.head
    && p.tailOffset == (p.blocksOffset + p.blocks) * p.block == offset + p.head + p.blocks * p.block
  }

  method PlanBlocks(offset: nat, count: nat) returns (p: BlockPlan)
    requires count > 4096
    ensures Partitions(p, offset, count)
  {
    var block := if count > 4 * KB * KB then KB * KB else 4096;
    BlockBounds(offset, block);
    var blocksOffset := CeilDiv(offset, block);
    var blocksByteOffset := blocksOffset * block;
    var blocksByteCount := AtLeastZero(offset + count - blocksByteOffset);
    FloorBounds(blocksByteCount, block);
    var blocksCount := blocksByteCount / block;
    var wholeBytes := blocksCount * block;

    var preCount: nat := blocksByteOffset - offset;
    if preCount > count {
      assert false; // a block never exceeds the write, so neither does the head
    }
    var postOffset := blocksByteOffset + wholeBytes;
    var postCount: nat := offset + count - postOffset;
    p := BlockPlan(block, preCount, blocksOffset, blocksCount, postOffset, postCount);
  }

  /** ZEROS and GARBAGE writes above 4096 bytes go out as up to three writes; together they
      are one write. */
  method WriteSpecial(f: File, offset: nat, count: nat, c: Cell) returns (r: File)
    ensures r == PWrite(f, offset, Fill(c, count))
  {
    hide PWrite, Fill;
    if count <= 4096 {
      return PWrite(f, offset, Fill(c, count));
    }
    var p := PlanBlocks(offset, count);
    var mid := p.blocks * p.block;
    ThreePieces(f, offset, c, p.head, mid, p.tail);
    r := f;
    WriteNothing(r, offset, Fill(c, 0));
    if p.head > 0 {
      r := PWrite(r, offset, Fill(c, p.head));
    }
    WriteNothing(r, offset + p.head, Fill(c, 0));
    if p.blocks > 0 {
      r := PWrite(r, p.blocksOffset * p.block, Fill(c, mid));
    }
    WriteNothing(r, offset + p.head + mid, Fill(c, 0));
    if p.tail > 0 {
      r := PWrite(r, p.tailOffset, Fill(c, p.tail));
    }
  }

  // ----- replaying a list, with and without the cache -----

  method ApplyRow(t: Tree, op: DiskOp) returns (r: Tree)
    ensures r == Apply(t, op)
  {
    if op.Write? && op.data.Zeros? {
      var f := WriteSpecial(Content(t, op.inode), op.offset, op.count, Zero);
      r := SetContent(t, op.inode, f);
    } else if op.Write? && op.data.Garbage? {
      var f := WriteSpecial(Content(t, op.inode), op.offset, op.count, Junk);
      r := SetContent(t, op.inode, f);
    } else {
      r := Apply(t, op);
    }
  }

  method ReplayRows(start: Tree, rows: seq<DiskOp>) returns (tree: Tree, stdout: string)
    ensures tree == ReplayAll(start, rows) && stdout == Printed(rows)
  {
    tree, stdout := start, "";
    for i := 0 to |rows|
      invariant tree == ReplayAll(start, rows[..i]) && stdout == Printed(rows[..i])
    {
      assert rows[..i + 1][..i] == rows[..i];
      tree := ApplyRow(tree, rows[i]);
      if rows[i].Stdout? {
        stdout := stdout + rows[i].text;
      }
    }
    assert rows[..|rows|] == rows;
  }

  /** The cached rows and the tree they led to; an empty list stands for no cache. */
  class ReplayCache {
    const initial: Tree
    var cachedRows: seq<DiskOp>
    var cachedTree: Tree

    ghost predicate Valid()
      reads this
    {
      cachedRows != [] ==> cachedTree == ReplayAll(initial, cachedRows)
    }

    predicate Hit(rows: seq<DiskOp>)
      reads this
    {
      cachedRows != [] && cachedRows <= rows
    }

    constructor (snapshot: Tree)
      ensures Valid() && initial == snapshot && cachedRows == []
    {
      initial, cachedRows, cachedTree := snapshot, [], snapshot;
    }

    /** The tree always is the full replay of this call's rows. The stdout file is only
        complete when nothing was printed by rows that came from the cache. */
    method ReplayDiskOps(rows: seq<DiskOp>, useCached: bool) returns (tree: Tree, stdout: string)
      requires Valid()
      modifies this
      ensures Valid()
      ensures tree == ReplayAll(initial, rows)
      ensures cachedRows == if useCached then rows else old(cachedRows)
      ensures stdout == Printed(if useCached && old(cachedRows) <= rows then rows[|old(cachedRows)|..] else rows)
      ensures stdout == Printed(rows) <==> !(useCached && old(cachedRows) <= rows && Printed(old(cachedRows)) != "")
    {
      if !useCached {
        tree, stdout := ReplayRows(initial, rows);
      } else if Hit(rows) {
        var suffix := rows[|cachedRows|..];
        assert rows == cachedRows + suffix;
        ReplayConcat(initial, cachedRows, suffix);
        PrintedConcat(cachedRows, suffix);
        cachedRows := cachedRows + suffix;
        tree, stdout := ReplayRows(cachedTree, suffix);
        cachedTree := tree;
      } else {
        cachedRows := rows;
        tree, stdout := ReplayRows(initial, rows);
        cachedTree := tree;
      }
    }
  }

  /** Two replays of the same printing row through the cache: the second one prints nothing. */
  method CachedTextIsLost(snapshot: Tree, text: string) returns (first: string, second: string)
    requires text != ""
    ensures Printed([Stdout(text)]) == first == text && second == ""
  {
    var cache := new ReplayCache(snapshot);
    var rows := [Stdout(text)];
    assert Printed(rows) == Printed(rows[..0]) + text;
    var _, once := cache.ReplayDiskOps(rows, true);
    assert rows[|rows|..] == [];
    var _, again := cache.ReplayDiskOps(rows, true);
    return once, again;
  }
}
